/** The octets of v3 messages and ScopedPDUs, element by element: exactly which ones trishul_snmp/wire/v3message.py
    accepts, with any definite length form at any element. */
module V3Grammar {
  import opened Wrappers
  import opened Octets
  import opened Ber
  import opened Integers
  import opened Asn1
  import opened Pdus
  import opened V3Messages
  import opened LengthForms

  /** An element as it is written, with its length field. */
  datatype Element = Element(tag: Octet, length: Bytes, content: Bytes)

  function Spelled(e: Element): Bytes {
    [e.tag] + (e.length + e.content)
  }

  predicate Proper(e: Element, tag: Octet) {
    e.tag == tag && SpellsLength(e.length, |e.content|)
  }

  /** An INTEGER element, of any content that is not empty. */
  predicate Integer(e: Element) {
    Proper(e, 0x02) && e.content != []
  }

  lemma ElementIsRead(data: Bytes, offset: nat, e: Element)
    requires Proper(e, e.tag) && At(data, offset, Spelled(e))
    ensures DecodeTlv(data, offset) == Success(Tlv(e.tag, e.content, offset + |Spelled(e)|))
  {
    hide SpellsLength, DecodeTlv;
    ElementSpelled(data, offset, e.tag, e.length, e.content);
  }

  lemma IntegerIsRead(data: Bytes, offset: nat, e: Element)
    requires Integer(e) && At(data, offset, Spelled(e))
    ensures DecodeIntegerFrom(data, offset) == Success((SignedValue(e.content), offset + |Spelled(e)|))
  {
    hide SpellsLength, DecodeTlv, SignedValue;
    ElementIsRead(data, offset, e);
  }

  lemma OctetsAreRead(data: Bytes, offset: nat, e: Element)
    requires Proper(e, 0x04) && At(data, offset, Spelled(e))
    ensures DecodeOctets(data, offset) == Success((e.content, offset + |Spelled(e)|))
  {
    hide SpellsLength, DecodeTlv;
    ElementIsRead(data, offset, e);
  }

  /** The element that was read, and the octets behind it. */
  lemma Extracted(data: Bytes, offset: nat) returns (e: Element)
    requires DecodeTlv(data, offset).Success?
    ensures var t := DecodeTlv(data, offset).value;
            && Proper(e, t.tag) && e.content == t.content && t.end == offset + |Spelled(e)|
            && offset <= t.end <= |data| && data[offset..] == Spelled(e) + data[t.end..]
  {
    hide SpellsLength, DecodeTlv;
    var t := DecodeTlv(data, offset).value;
    var field := FieldOf(data, offset);
    e := Element(t.tag, field, t.content);
    assert |data[offset..]| == |Spelled(e)| + |data[t.end..]|;
  }

  // Headers

  datatype HeaderParts = HeaderParts(msgId: Element, maxSize: Element, flags: Element, model: Element)

  function HeaderOctets(h: HeaderParts): Bytes {
    Spelled(h.msgId) + (Spelled(h.maxSize) + (Spelled(h.flags) + Spelled(h.model)))
  }

  predicate ProperHeader(h: HeaderParts) {
    && Integer(h.msgId) && Integer(h.maxSize) && Proper(h.flags, 0x04) && |h.flags.content| == 1 && Integer(h.model)
  }

  function HeaderOf(h: HeaderParts, end: nat): Header
    requires ProperHeader(h)
  {
    Header(SignedValue(h.msgId.content), SignedValue(h.maxSize.content), h.flags.content[0],
           SignedValue(h.model.content), end)
  }

  lemma FourPieces(a: Bytes, b: Bytes, c: Bytes, d: Bytes)
    ensures var all := a + (b + (c + d));
            && At(all, 0, a) && At(all, |a|, b) && At(all, |a| + |b|, c) && At(all, |a| + |b| + |c|, d)
            && |all| == |a| + |b| + |c| + |d|
  {
    hide At;
    var all := a + (b + (c + d));
    AtStart(all);
    AtSplit(all, 0, a, b + (c + d));
    AtSplit(all, |a|, b, c + d);
    AtSplit(all, |a| + |b|, c, d);
  }

  lemma HeaderIsRead(h: HeaderParts, end: nat)
    requires ProperHeader(h)
    ensures DecodeHeaderContent(HeaderOctets(h), end) == Success(HeaderOf(h, end))
  {
    hide Spelled, SpellsLength, At, DecodeIntegerFrom, DecodeOctets, SignedValue;
    var content := HeaderOctets(h);
    var a, b, c := |Spelled(h.msgId)|, |Spelled(h.maxSize)|, |Spelled(h.flags)|;
    FourPieces(Spelled(h.msgId), Spelled(h.maxSize), Spelled(h.flags), Spelled(h.model));
    IntegerIsRead(content, 0, h.msgId);
    IntegerIsRead(content, a, h.maxSize);
    OctetsAreRead(content, a + b, h.flags);
    IntegerIsRead(content, a + b + c, h.model);
  }

  /** An integer that was read was written as an INTEGER element of that value. */
  lemma ExtractedInteger(data: Bytes, offset: nat) returns (e: Element)
    requires DecodeIntegerFrom(data, offset).Success?
    ensures var (n, end) := DecodeIntegerFrom(data, offset).value;
            && Integer(e) && SignedValue(e.content) == n && end == offset + |Spelled(e)|
            && offset <= end <= |data| && data[offset..] == Spelled(e) + data[end..]
  {
    hide Spelled, SpellsLength, DecodeTlv, SignedValue;
    e := Extracted(data, offset);
  }

  lemma ExtractedOctets(data: Bytes, offset: nat) returns (e: Element)
    requires DecodeOctets(data, offset).Success?
    ensures var (octets, end) := DecodeOctets(data, offset).value;
            && Proper(e, 0x04) && e.content == octets && end == offset + |Spelled(e)|
            && offset <= end <= |data| && data[offset..] == Spelled(e) + data[end..]
  {
    hide Spelled, SpellsLength, DecodeTlv;
    e := Extracted(data, offset);
  }

  lemma HeaderIsWritten(content: Bytes, end: nat) returns (h: HeaderParts)
    requires DecodeHeaderContent(content, end).Success?
    ensures ProperHeader(h) && HeaderOctets(h) == content
    ensures DecodeHeaderContent(content, end).value == HeaderOf(h, end)
  {
    hide Spelled, SpellsLength, DecodeIntegerFrom, DecodeOctets, SignedValue;
    var a := ExtractedInteger(content, 0);
    var o1 := |Spelled(a)|;
    var b := ExtractedInteger(content, o1);
    var o2 := o1 + |Spelled(b)|;
    var c := ExtractedOctets(content, o2);
    var o3 := o2 + |Spelled(c)|;
    var d := ExtractedInteger(content, o3);
    h := HeaderParts(a, b, c, d);
    assert content[0..] == content && content[|content|..] == [];
  }

  // Security parameters

  datatype UsmParts = UsmParts(engineId: Element, boots: Element, time: Element, username: Element, auth: Element,
                               priv: Element)

  function UsmOctets(u: UsmParts): Bytes {
    UsmFront(u) + (Spelled(u.username) + (Spelled(u.auth) + Spelled(u.priv)))
  }

  function UsmFront(u: UsmParts): Bytes {
    Spelled(u.engineId) + (Spelled(u.boots) + Spelled(u.time))
  }

  predicate ProperUsm(u: UsmParts) {
    && Proper(u.engineId, 0x04) && Integer(u.boots) && Integer(u.time)
    && Proper(u.username, 0x04) && Proper(u.auth, 0x04) && Proper(u.priv, 0x04)
  }

  function UsmOf(u: UsmParts): UsmParams
    requires ProperUsm(u)
  {
    UsmParams(u.engineId.content, SignedValue(u.boots.content), SignedValue(u.time.content), u.username.content,
              u.auth.content, u.priv.content)
  }

  /** Where the content of the authentication parameters starts. */
  function AuthStart(u: UsmParts): nat {
    |UsmFront(u)| + |Spelled(u.username)| + 1 + |u.auth.length|
  }

  lemma SixPieces(u: UsmParts)
    ensures var all := UsmOctets(u);
            var a, b, c := |Spelled(u.engineId)|, |Spelled(u.boots)|, |Spelled(u.time)|;
            var d, e := |Spelled(u.username)|, |Spelled(u.auth)|;
            && At(all, 0, Spelled(u.engineId)) && At(all, a, Spelled(u.boots)) && At(all, a + b, Spelled(u.time))
            && At(all, a + b + c, Spelled(u.username)) && At(all, a + b + c + d, Spelled(u.auth))
            && At(all, a + b + c + d + e, Spelled(u.priv))
            && |all| == a + b + c + d + e + |Spelled(u.priv)| && |UsmFront(u)| == a + b + c
  {
    hide At, Spelled;
    var all := UsmOctets(u);
    FourPieces(UsmFront(u), Spelled(u.username), Spelled(u.auth), Spelled(u.priv));
    AtSplit(all, 0, Spelled(u.engineId), Spelled(u.boots) + Spelled(u.time));
    AtSplit(all, |Spelled(u.engineId)|, Spelled(u.boots), Spelled(u.time));
  }

  lemma UsmIsRead(u: UsmParts)
    requires ProperUsm(u)
    ensures DecodeUsmContent(UsmOctets(u)) == Success((UsmOf(u), AuthStart(u)))
  {
    hide Spelled, SpellsLength, At, DecodeIntegerFrom, DecodeOctets, SignedValue, UsmOctets, UsmFront;
    SixPieces(u);
    var content := UsmOctets(u);
    var a, b, c := |Spelled(u.engineId)|, |Spelled(u.boots)|, |Spelled(u.time)|;
    var d, e := |Spelled(u.username)|, |Spelled(u.auth)|;
    OctetsAreRead(content, 0, u.engineId);
    IntegerIsRead(content, a, u.boots);
    IntegerIsRead(content, a + b, u.time);
    OctetsAreRead(content, a + b + c, u.username);
    OctetsAreRead(content, a + b + c + d, u.auth);
    OctetsAreRead(content, a + b + c + d + e, u.priv);
    OctetsLength(u.auth);
  }

  lemma OctetsLength(e: Element)
    ensures |Spelled(e)| == 1 + |e.length| + |e.content|
  {
  }

  lemma UsmIsWritten(content: Bytes) returns (u: UsmParts)
    requires DecodeUsmContent(content).Success?
    ensures ProperUsm(u) && UsmOctets(u) == content
    ensures DecodeUsmContent(content).value == (UsmOf(u), AuthStart(u))
  {
    hide Spelled, SpellsLength, DecodeIntegerFrom, DecodeOctets, SignedValue;
    var a := ExtractedOctets(content, 0);
    var o1 := |Spelled(a)|;
    var b := ExtractedInteger(content, o1);
    var o2 := o1 + |Spelled(b)|;
    var c := ExtractedInteger(content, o2);
    var o3 := o2 + |Spelled(c)|;
    var d := ExtractedOctets(content, o3);
    var o4 := o3 + |Spelled(d)|;
    var e := ExtractedOctets(content, o4);
    var o5 := o4 + |Spelled(e)|;
    var f := ExtractedOctets(content, o5);
    u := UsmParts(a, b, c, d, e, f);
    OctetsLength(e);
    SixJoined(content, u, o1, o2, o3, o4, o5);
  }

  lemma SixJoined(content: Bytes, u: UsmParts, o1: nat, o2: nat, o3: nat, o4: nat, o5: nat)
    requires o1 <= |content| && o2 <= |content| && o3 <= |content| && o4 <= |content| && o5 <= |content|
    requires content[0..] == Spelled(u.engineId) + content[o1..]
    requires content[o1..] == Spelled(u.boots) + content[o2..]
    requires content[o2..] == Spelled(u.time) + content[o3..]
    requires content[o3..] == Spelled(u.username) + content[o4..]
    requires content[o4..] == Spelled(u.auth) + content[o5..]
    requires content[o5..] == Spelled(u.priv) + content[|content|..]
    ensures UsmOctets(u) == content
  {
    hide Spelled;
    assert content[|content|..] == [] && content[0..] == content;
    var back := Spelled(u.username) + (Spelled(u.auth) + Spelled(u.priv));
    assert content[o3..] == back;
    assert content == Spelled(u.engineId) + (Spelled(u.boots) + (Spelled(u.time) + back));
  }

  // Messages

  /** The elements of a message: its version, header, security parameters and data, and the length fields of the
      four elements that hold others. */
  datatype Parts = Parts(outer: Bytes, version: Element, headerLength: Bytes, header: HeaderParts, security: Bytes,
                         usmLength: Bytes, usm: UsmParts, msgData: Element)

  function HeaderElement(p: Parts): Element {
    Element(0x30, p.headerLength, HeaderOctets(p.header))
  }

  function UsmElement(p: Parts): Element {
    Element(0x30, p.usmLength, UsmOctets(p.usm))
  }

  function SecurityElement(p: Parts): Element {
    Element(0x04, p.security, Spelled(UsmElement(p)))
  }

  function ContentOctets(p: Parts): Bytes {
    Spelled(p.version) + (Spelled(HeaderElement(p)) + (Spelled(SecurityElement(p)) + Spelled(p.msgData)))
  }

  function WholeElement(p: Parts): Element {
    Element(0x30, p.outer, ContentOctets(p))
  }

  /** Version 3 and the user-based security model, one octet of flags, and data of the kind that the privacy flag
      announces; every length in a definite form; integers of any length but none. */
  predicate WellFormed(p: Parts) {
    && Proper(WholeElement(p), 0x30) && Proper(HeaderElement(p), 0x30) && Proper(SecurityElement(p), 0x04)
    && Proper(UsmElement(p), 0x30)
    && Integer(p.version) && SignedValue(p.version.content) == 3
    && ProperHeader(p.header) && SignedValue(p.header.model.content) == 3
    && ProperUsm(p.usm)
    && Proper(p.msgData, if p.header.flags.content[0] / 2 % 2 == 1 then 0x04 else 0x30)
  }

  /** What a well-formed message says, and where in its octets the authentication parameters start. */
  function ViewOf(p: Parts): View
    requires WellFormed(p)
  {
    View(SignedValue(p.header.msgId.content), SignedValue(p.header.maxSize.content), p.header.flags.content[0],
         UsmOf(p.usm), Spelled(p.msgData),
         1 + |p.outer| + |Spelled(p.version)| + |Spelled(HeaderElement(p))|
         + 1 + |p.security| + 1 + |p.usmLength| + AuthStart(p.usm))
  }

  lemma WholeIsRead(data: Bytes, e: Element)
    requires Proper(e, e.tag) && data == Spelled(e)
    ensures DecodeTlv(data, 0) == Success(Tlv(e.tag, e.content, |data|))
  {
    hide DecodeTlv, Spelled, SpellsLength;
    AtStart(data);
    ElementIsRead(data, 0, e);
  }

  lemma SecurityIsRead(p: Parts)
    requires ProperUsm(p.usm) && Proper(UsmElement(p), 0x30)
    ensures DecodeUsm(Spelled(UsmElement(p))) == Success((UsmOf(p.usm), 1 + |p.usmLength| + AuthStart(p.usm)))
  {
    hide DecodeTlv, DecodeUsmContent, SpellsLength, UsmOctets, AuthStart, SignedValue, ProperUsm;
    WholeIsRead(Spelled(UsmElement(p)), UsmElement(p));
    UsmIsRead(p.usm);
    OctetsLength(UsmElement(p));
  }

  lemma HeaderElementIsRead(data: Bytes, offset: nat, p: Parts)
    requires ProperHeader(p.header) && Proper(HeaderElement(p), 0x30) && At(data, offset, Spelled(HeaderElement(p)))
    ensures DecodeHeader(data, offset) == Success(HeaderOf(p.header, offset + |Spelled(HeaderElement(p))|))
  {
    hide DecodeTlv, DecodeHeaderContent, SpellsLength, HeaderOctets, Spelled, SignedValue, ProperHeader;
    ElementIsRead(data, offset, HeaderElement(p));
    HeaderIsRead(p.header, offset + |Spelled(HeaderElement(p))|);
  }

  lemma WellFormedIsRead(p: Parts)
    requires WellFormed(p)
    ensures DecodeV3(Spelled(WholeElement(p))) == Success(ViewOf(p))
  {
    hide Spelled, SpellsLength, At, DecodeTlv, DecodeIntegerFrom, DecodeHeader, DecodeOctets, DecodeUsm, SignedValue,
      HeaderElement, UsmElement, AuthStart, ProperUsm, Integer;
    var content := ContentOctets(p);
    var a, b, c := |Spelled(p.version)|, |Spelled(HeaderElement(p))|, |Spelled(SecurityElement(p))|;
    WholeIsRead(Spelled(WholeElement(p)), WholeElement(p));
    OctetsLength(WholeElement(p));
    OctetsLength(SecurityElement(p));
    FourPieces(Spelled(p.version), Spelled(HeaderElement(p)), Spelled(SecurityElement(p)), Spelled(p.msgData));
    IntegerIsRead(content, 0, p.version);
    HeaderElementIsRead(content, a, p);
    OctetsAreRead(content, a + b, SecurityElement(p));
    SecurityIsRead(p);
    ElementIsRead(content, a + b + c, p.msgData);
    LastPiece(content, a + b + c, Spelled(p.msgData));
  }

  lemma WholeIsWritten(data: Bytes) returns (e: Element)
    requires DecodeTlv(data, 0).Success? && DecodeTlv(data, 0).value.end == |data|
    ensures var t := DecodeTlv(data, 0).value;
            Proper(e, t.tag) && e.content == t.content && Spelled(e) == data
  {
    hide DecodeTlv, SpellsLength, Spelled;
    e := Extracted(data, 0);
    assert data[0..] == data && data[|data|..] == [];
  }

  lemma HeaderElementIsWritten(content: Bytes, offset: nat) returns (e: Element, h: HeaderParts)
    requires DecodeHeader(content, offset).Success?
    ensures var header := DecodeHeader(content, offset).value;
            && Proper(e, 0x30) && ProperHeader(h) && e.content == HeaderOctets(h)
            && header == HeaderOf(h, offset + |Spelled(e)|)
            && offset <= header.end <= |content| && content[offset..] == Spelled(e) + content[header.end..]
  {
    hide Spelled, SpellsLength, DecodeTlv, DecodeHeaderContent, SignedValue, HeaderOctets, ProperHeader;
    e := Extracted(content, offset);
    h := HeaderIsWritten(e.content, offset + |Spelled(e)|);
  }

  lemma SecurityIsWritten(security: Bytes) returns (e: Element, u: UsmParts)
    requires DecodeUsm(security).Success?
    ensures Proper(e, 0x30) && ProperUsm(u) && e.content == UsmOctets(u) && Spelled(e) == security
  {
    hide Spelled, SpellsLength, DecodeTlv, DecodeUsmContent, UsmOctets, ProperUsm;
    e := WholeIsWritten(security);
    u := UsmIsWritten(e.content);
  }

  lemma AcceptedIsWellFormed(data: Bytes) returns (p: Parts)
    requires DecodeV3(data).Success?
    ensures WellFormed(p) && Spelled(WholeElement(p)) == data
  {
    hide Spelled, SpellsLength, DecodeTlv, DecodeIntegerFrom, DecodeHeader, DecodeOctets, DecodeUsm, SignedValue,
      HeaderOctets, UsmOctets, ProperUsm, Integer;
    var whole := WholeIsWritten(data);
    var content := whole.content;
    var version := ExtractedInteger(content, 0);
    var h, header := HeaderElementIsWritten(content, |Spelled(version)|);
    var o2 := |Spelled(version)| + |Spelled(h)|;
    var sec := ExtractedOctets(content, o2);
    var u, usm := SecurityIsWritten(sec.content);
    var o3 := o2 + |Spelled(sec)|;
    var msgData := Extracted(content, o3);
    p := Parts(whole.length, version, h.length, header, sec.length, u.length, usm, msgData);
    assert HeaderElement(p) == h && UsmElement(p) == u && SecurityElement(p) == sec;
    FourJoined(content, version, h, sec, msgData, o2, o3);
  }

  lemma FourJoined(content: Bytes, a: Element, b: Element, c: Element, d: Element, o2: nat, o3: nat)
    requires |Spelled(a)| <= |content| && o2 <= |content| && o3 <= |content|
    requires content[0..] == Spelled(a) + content[|Spelled(a)|..]
    requires content[|Spelled(a)|..] == Spelled(b) + content[o2..]
    requires content[o2..] == Spelled(c) + content[o3..]
    requires content[o3..] == Spelled(d) + content[|content|..]
    ensures Spelled(a) + (Spelled(b) + (Spelled(c) + Spelled(d))) == content
  {
    hide Spelled;
    assert content[0..] == content && content[|content|..] == [];
  }

  /** Exactly the octets of well-formed messages are accepted, and they are read as what they say. */
  lemma V3Exactly(data: Bytes, v: View)
    ensures DecodeV3(data) == Success(v)
       <==> exists p :: WellFormed(p) && Spelled(WholeElement(p)) == data && ViewOf(p) == v
  {
    hide Spelled, DecodeV3, WellFormed, ViewOf, WholeElement;
    if DecodeV3(data) == Success(v) {
      var p := AcceptedIsWellFormed(data);
      WellFormedIsRead(p);
    }
    if p :| WellFormed(p) && Spelled(WholeElement(p)) == data && ViewOf(p) == v {
      WellFormedIsRead(p);
    }
  }

  // ScopedPDUs

  /** A SEQUENCE of two octet strings and one element more. */
  predicate SpellsScoped(data: Bytes, outer: Bytes, engineId: Element, contextName: Element, pdu: Element) {
    var whole := Element(0x30, outer, Spelled(engineId) + (Spelled(contextName) + Spelled(pdu)));
    && Proper(whole, 0x30) && data == Spelled(whole)
    && Proper(engineId, 0x04) && Proper(contextName, 0x04) && Proper(pdu, pdu.tag)
  }

  /** Exactly these octets are accepted as a ScopedPDU, and they are read as what they hold. */
  lemma ScopedExactly(data: Bytes, s: Scoped)
    ensures DecodeScopedFields(data) == Success(s)
       <==> exists outer, engineId, contextName, pdu ::
              && SpellsScoped(data, outer, engineId, contextName, pdu)
              && s == Scoped(engineId.content, contextName.content, pdu.tag, pdu.content)
  {
    hide Spelled, SpellsLength, At, DecodeTlv, DecodeOctets;
    if DecodeScopedFields(data) == Success(s) {
      var whole := WholeIsWritten(data);
      var content := whole.content;
      var a := ExtractedOctets(content, 0);
      var b := ExtractedOctets(content, |Spelled(a)|);
      var c := Extracted(content, |Spelled(a)| + |Spelled(b)|);
      assert content[0..] == content && content[|content|..] == [];
      assert content == Spelled(a) + (Spelled(b) + Spelled(c));
      assert SpellsScoped(data, whole.length, a, b, c);
    }
    if outer, a, b, c :| SpellsScoped(data, outer, a, b, c) && s == Scoped(a.content, b.content, c.tag, c.content) {
      var content := Spelled(a) + (Spelled(b) + Spelled(c));
      WholeIsRead(data, Element(0x30, outer, content));
      AtThree(Spelled(a), Spelled(b), Spelled(c));
      OctetsAreRead(content, 0, a);
      OctetsAreRead(content, |Spelled(a)|, b);
      ElementIsRead(content, |Spelled(a)| + |Spelled(b)|, c);
    }
  }
}
