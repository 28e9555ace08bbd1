/** The v2c decoder sees tags and primitive contents only: how each definite length is spelled,
    short, long or zero-padded, makes no difference. */
module LengthForms {
  import opened Wrappers
  import opened Octets
  import opened Ber
  import opened Integers
  import opened Oids
  import opened Asn1
  import opened Pdus
  import opened Messages
  import Text

  /** What is left of an encoding when its length octets are dropped. */
  datatype Node = Primitive(tag: Octet, content: Bytes) | Constructed(tag: Octet, children: seq<Node>)

  /** The constructed bit of an identifier octet. */
  predicate IsConstructed(tag: Octet) {
    tag / 32 % 2 == 1
  }

  function Forest(data: Bytes, offset: nat): Outcome<seq<Node>>
    requires offset <= |data|
    decreases |data| - offset
  {
    if offset == |data| then Success([])
    else
      var t :- DecodeTlv(data, offset);
      var node :- (
        if IsConstructed(t.tag) then
          var children :- Forest(t.content, 0);
          Success(Constructed(t.tag, children))
        else Success(Primitive(t.tag, t.content)));
      var rest :- Forest(data, t.end);
      Success([node] + rest)
  }

  // The decoder over trees

  function IntegerOf(node: Node): (r: Outcome<int>)
    ensures r.Failure? ==> r.error == ProtocolError
  {
    if node.Primitive? && node.tag == INTEGER then DecodeSigned(node.content) else Failure(ProtocolError)
  }

  function VarbindOf(node: Node): (r: Outcome<RawVarBind>)
    ensures r.Failure? ==> r.error == ProtocolError
  {
    if node.Primitive? || node.tag != SEQUENCE || |node.children| != 2 then Failure(ProtocolError)
    else
      var o, v := node.children[0], node.children[1];
      if !o.Primitive? || o.tag != OBJECT_IDENTIFIER || !v.Primitive? then Failure(ProtocolError)
      else
        var oid :- DecodeOid(o.content);
        var value :- DecodeContent(v.tag, v.content);
        Success(RawVarBind(oid, value))
  }

  function VarbindsOf(nodes: seq<Node>): (r: Outcome<seq<RawVarBind>>)
    ensures r.Failure? ==> r.error == ProtocolError
  {
    if nodes == [] then Success([])
    else
      var vb :- VarbindOf(nodes[0]);
      var rest :- VarbindsOf(nodes[1..]);
      Success([vb] + rest)
  }

  function ListOf(node: Node): (r: Outcome<seq<RawVarBind>>)
    ensures r.Failure? ==> r.error == ProtocolError
  {
    if node.Constructed? && node.tag == SEQUENCE then VarbindsOf(node.children) else Failure(ProtocolError)
  }

  function BodyOf(nodes: seq<Node>): (r: Outcome<Body>)
    ensures r.Failure? ==> r.error == ProtocolError
  {
    if |nodes| != 4 then Failure(ProtocolError)
    else
      var requestId :- IntegerOf(nodes[0]);
      var errorStatus :- IntegerOf(nodes[1]);
      var errorIndex :- IntegerOf(nodes[2]);
      var varbinds :- ListOf(nodes[3]);
      Success(Body(requestId, errorStatus, errorIndex, varbinds))
  }

  function PduOf(node: Node): (r: Outcome<Pdu>)
    ensures r.Failure? ==> r.error == ProtocolError
  {
    if node.Primitive? || TypeOfTag(node.tag).None? then Failure(ProtocolError)
    else
      var body :- BodyOf(node.children);
      Success(Pdu(TypeOfTag(node.tag).value, body))
  }

  function MessageOf(nodes: seq<Node>): (r: Outcome<Message>)
    ensures r.Failure? ==> r.error == ProtocolError
  {
    if |nodes| != 1 || nodes[0].Primitive? || nodes[0].tag != SEQUENCE || |nodes[0].children| != 3
    then Failure(ProtocolError)
    else
      var parts := nodes[0].children;
      var version :- IntegerOf(parts[0]);
      if !parts[1].Primitive? || parts[1].tag != OCTET_STRING || !Text.IsUtf8(parts[1].content)
      then Failure(ProtocolError)
      else
        var pdu :- PduOf(parts[2]);
        if version != V2C_VERSION then Failure(ProtocolError)
        else Success(Message(version, parts[1].content, pdu))
  }

  // The octet decoder agrees with the tree decoder

  /** The first element of a forest, and the forest behind it. */
  lemma ForestStep(data: Bytes, offset: nat)
    requires offset < |data| && Forest(data, offset).Success?
    ensures DecodeTlv(data, offset).Success?
    ensures var t := DecodeTlv(data, offset).value;
            var nodes := Forest(data, offset).value;
            && nodes != []
            && nodes[0].tag == t.tag
            && (nodes[0].Constructed? <==> IsConstructed(t.tag))
            && (nodes[0].Primitive? ==> nodes[0].content == t.content)
            && (nodes[0].Constructed? ==> Forest(t.content, 0) == Success(nodes[0].children))
            && Forest(data, t.end) == Success(nodes[1..])
  {
  }

  /** Reading an element succeeds exactly when the forest has one left. */
  lemma ForestEnd(data: Bytes, offset: nat)
    requires offset <= |data| && Forest(data, offset).Success?
    ensures Forest(data, offset).value == [] <==> offset == |data|
    ensures offset == |data| ==> DecodeTlv(data, offset) == Failure(ProtocolError)
  {
  }

  lemma IntegerAgrees(data: Bytes, offset: nat)
    requires offset <= |data| && Forest(data, offset).Success?
    ensures var nodes := Forest(data, offset).value;
            var r := DecodeIntegerFrom(data, offset);
            && (r.Success? <==> nodes != [] && IntegerOf(nodes[0]).Success?)
            && (r.Success? ==> r.value.0 == IntegerOf(nodes[0]).value
                               && Forest(data, r.value.1) == Success(nodes[1..]))
  {
    hide DecodeTlv, DecodeSigned, Forest;
    ForestEnd(data, offset);
    if offset < |data| {
      ForestStep(data, offset);
    }
  }

  lemma VarbindAgrees(content: Bytes, nodes: seq<Node>)
    requires Forest(content, 0) == Success(nodes)
    ensures DecodeVarbindContent(content) == VarbindOf(Constructed(SEQUENCE, nodes))
  {
    hide DecodeTlv, DecodeOid, DecodeContent, Forest, DecodeValue, EncodeTlv;
    ForestEnd(content, 0);
    if nodes != [] {
      ForestStep(content, 0);
      var o := DecodeTlv(content, 0).value;
      ForestEnd(content, o.end);
      if o.end < |content| {
        ForestStep(content, o.end);
        var v := DecodeTlv(content, o.end).value;
        ForestEnd(content, v.end);
        DecodeValueRewritten(content, o.end);
        if IsConstructed(v.tag) {
          NoConstructedValue(v.tag, v.content);
        }
      }
    }
  }

  lemma NoConstructedValue(tag: Octet, content: Bytes)
    requires IsConstructed(tag)
    ensures DecodeContent(tag, content) == Failure(ProtocolError)
  {
  }

  lemma {:induction false} VarbindsAgree(content: Bytes, offset: nat)
    requires offset <= |content| && Forest(content, offset).Success?
    ensures DecodeVarbinds(content, offset) == VarbindsOf(Forest(content, offset).value)
    decreases |content| - offset
  {
    hide DecodeTlv, DecodeVarbindContent;
    ForestEnd(content, offset);
    if offset < |content| {
      ForestStep(content, offset);
      var t := DecodeTlv(content, offset).value;
      VarbindsAgree(content, t.end);
      var node := Forest(content, offset).value[0];
      if node.Constructed? && node.tag == SEQUENCE {
        VarbindAgrees(t.content, node.children);
      }
    }
  }

  lemma ListAgrees(data: Bytes, offset: nat)
    requires offset <= |data| && Forest(data, offset).Success?
    ensures var nodes := Forest(data, offset).value;
            var r := DecodeVarbindList(data, offset);
            && (r.Success? <==> nodes != [] && ListOf(nodes[0]).Success?)
            && (r.Success? ==> r.value.0 == ListOf(nodes[0]).value
                               && Forest(data, r.value.1) == Success(nodes[1..]))
  {
    hide DecodeTlv, Forest, DecodeVarbinds, VarbindsOf;
    ForestEnd(data, offset);
    if offset < |data| {
      ForestStep(data, offset);
      var t := DecodeTlv(data, offset).value;
      if t.tag == SEQUENCE {
        VarbindsAgree(t.content, 0);
      }
    }
  }

  lemma BodyAgrees(content: Bytes)
    requires Forest(content, 0).Success?
    ensures DecodeBody(content) == BodyOf(Forest(content, 0).value)
  {
    hide Forest, DecodeIntegerFrom, DecodeVarbindList, IntegerOf, ListOf;
    var nodes := Forest(content, 0).value;
    assert |nodes| >= 4 ==>
        nodes[1..][0] == nodes[1] && nodes[1..][1..][0] == nodes[2] && nodes[1..][1..][1..][0] == nodes[3];
    IntegerAgrees(content, 0);
    if DecodeIntegerFrom(content, 0).Success? {
      var o1 := DecodeIntegerFrom(content, 0).value.1;
      IntegerAgrees(content, o1);
      if DecodeIntegerFrom(content, o1).Success? {
        var o2 := DecodeIntegerFrom(content, o1).value.1;
        IntegerAgrees(content, o2);
        if DecodeIntegerFrom(content, o2).Success? {
          var o3 := DecodeIntegerFrom(content, o2).value.1;
          ListAgrees(content, o3);
          if DecodeVarbindList(content, o3).Success? {
            ForestEnd(content, DecodeVarbindList(content, o3).value.1);
          }
        }
      }
    }
  }

  lemma PduAgrees(data: Bytes, offset: nat)
    requires offset < |data| && Forest(data, offset).Success?
    ensures var t := DecodeTlv(data, offset);
            t.Success? && DecodePdu(EncodeTlv(t.value.tag, t.value.content)) == PduOf(Forest(data, offset).value[0])
  {
    hide Forest, DecodeTlv, EncodeTlv, DecodePdu, DecodeBody, BodyOf;
    ForestStep(data, offset);
    DecodePduRewritten(data, offset);
    var t := DecodeTlv(data, offset).value;
    if IsConstructed(t.tag) {
      BodyAgrees(t.content);
    }
  }

  /** The decoder factors through the tree of tags and primitive contents. */
  lemma DecoderReadsTheTree(data: Bytes)
    requires Forest(data, 0).Success?
    ensures DecodeMessage(data) == MessageOf(Forest(data, 0).value)
  {
    hide Forest, DecodeTlv, EncodeTlv, DecodePdu, IntegerOf, PduOf, DecodeIntegerFrom, Text.IsUtf8;
    ForestEnd(data, 0);
    if data != [] {
      ForestStep(data, 0);
      var t := DecodeTlv(data, 0).value;
      ForestEnd(data, t.end);
      if t.tag == SEQUENCE && t.end == |data| {
        var content := t.content;
        IntegerAgrees(content, 0);
        if DecodeIntegerFrom(content, 0).Success? {
          var o1 := DecodeIntegerFrom(content, 0).value.1;
          ForestEnd(content, o1);
          if o1 < |content| {
            ForestStep(content, o1);
            if DecodeText(content, o1).Success? {
              var o2 := DecodeText(content, o1).value.1;
              ForestEnd(content, o2);
              if o2 < |content| {
                ForestStep(content, o2);
                PduAgrees(content, o2);
                ForestEnd(content, DecodeTlv(content, o2).value.end);
              }
            }
          }
        }
      }
    }
  }

  // Every accepted message has a tree

  lemma ForestGrows(data: Bytes, offset: nat)
    requires DecodeTlv(data, offset).Success?
    requires var t := DecodeTlv(data, offset).value;
             && (IsConstructed(t.tag) ==> Forest(t.content, 0).Success?)
             && Forest(data, t.end).Success?
    ensures offset < |data| && Forest(data, offset).Success?
  {
  }

  lemma EmptyForest(data: Bytes)
    ensures Forest(data, |data|) == Success([])
  {
  }

  lemma IntegerHasTree(data: Bytes, offset: nat)
    requires DecodeIntegerFrom(data, offset).Success?
    requires Forest(data, DecodeIntegerFrom(data, offset).value.1).Success?
    ensures offset < |data| && Forest(data, offset).Success?
  {
    hide DecodeTlv, DecodeSigned, Forest;
    ForestGrows(data, offset);
  }

  lemma VarbindHasTree(content: Bytes)
    requires DecodeVarbindContent(content).Success?
    ensures Forest(content, 0).Success?
  {
    hide DecodeTlv, DecodeOid, DecodeContent, Forest, DecodeValue, EncodeTlv;
    var o := DecodeTlv(content, 0).value;
    var v := DecodeTlv(content, o.end).value;
    DecodeValueRewritten(content, o.end);
    if IsConstructed(v.tag) {
      NoConstructedValue(v.tag, v.content);
      assert false;
    }
    EmptyForest(content);
    ForestGrows(content, o.end);
    ForestGrows(content, 0);
  }

  lemma {:induction false} VarbindsHaveTrees(content: Bytes, offset: nat)
    requires offset <= |content| && DecodeVarbinds(content, offset).Success?
    ensures Forest(content, offset).Success?
    decreases |content| - offset
  {
    hide DecodeTlv, DecodeVarbindContent, Forest;
    if offset < |content| {
      var t := DecodeTlv(content, offset).value;
      VarbindHasTree(t.content);
      VarbindsHaveTrees(content, t.end);
      ForestGrows(content, offset);
    } else {
      EmptyForest(content);
    }
  }

  lemma BodyHasTree(content: Bytes)
    requires DecodeBody(content).Success?
    ensures Forest(content, 0).Success?
  {
    hide DecodeTlv, DecodeIntegerFrom, DecodeVarbinds, Forest;
    var o1 := DecodeIntegerFrom(content, 0).value.1;
    var o2 := DecodeIntegerFrom(content, o1).value.1;
    var o3 := DecodeIntegerFrom(content, o2).value.1;
    var list := DecodeTlv(content, o3).value;
    VarbindsHaveTrees(list.content, 0);
    EmptyForest(content);
    ForestGrows(content, o3);
    IntegerHasTree(content, o2);
    IntegerHasTree(content, o1);
    IntegerHasTree(content, 0);
  }

  /** Whatever is accepted is a sequence of elements throughout, so that it has a tree. */
  lemma AcceptedHasTree(data: Bytes)
    requires DecodeMessage(data).Success?
    ensures Forest(data, 0).Success?
  {
    hide DecodeTlv, EncodeTlv, DecodePdu, DecodeIntegerFrom, DecodeBody, Forest, Text.IsUtf8;
    var content := DecodeTlv(data, 0).value.content;
    var o1 := DecodeIntegerFrom(content, 0).value.1;
    var o2 := DecodeText(content, o1).value.1;
    var p := DecodeTlv(content, o2).value;
    DecodePduRewritten(content, o2);
    PduHasTree(p.tag, p.content);
    EmptyForest(content);
    ForestGrows(content, o2);
    ForestGrows(content, o1);
    IntegerHasTree(content, 0);
    EmptyForest(data);
    ForestGrows(data, 0);
  }

  lemma PduHasTree(tag: Octet, content: Bytes)
    requires DecodePduContent(tag, content).Success?
    ensures Forest(content, 0).Success?
  {
    BodyHasTree(content);
  }

  // Spellings

  /** An encoding, element by element, with the length field written in front of each content. */
  datatype Spelling =
    | End
    | Leaf(tag: Octet, length: Bytes, content: Bytes, rest: Spelling)
    | Branch(tag: Octet, length: Bytes, children: Spelling, rest: Spelling)

  function Written(f: Spelling): Bytes {
    match f
    case End => []
    case Leaf(tag, length, content, rest) => ([tag] + (length + content)) + Written(rest)
    case Branch(tag, length, children, rest) => ([tag] + (length + Written(children))) + Written(rest)
  }

  function Trees(f: Spelling): seq<Node> {
    match f
    case End => []
    case Leaf(tag, _, content, rest) => [Primitive(tag, content)] + Trees(rest)
    case Branch(tag, _, children, rest) => [Constructed(tag, Trees(children))] + Trees(rest)
  }

  /** A definite length of `n`: the short form, or the long form with any number of leading zeros. */
  predicate SpellsLength(field: Bytes, n: nat) {
    || (n < 0x80 && field == [n])
    || (2 <= |field| <= 128 && field[0] == 0x80 + (|field| - 1) && FromBytes(field[1..]) == n)
  }

  predicate WellSpelled(f: Spelling) {
    match f
    case End => true
    case Leaf(tag, length, content, rest) =>
      !IsConstructed(tag) && SpellsLength(length, |content|) && WellSpelled(rest)
    case Branch(tag, length, children, rest) =>
      IsConstructed(tag) && SpellsLength(length, |Written(children)|) && WellSpelled(children) && WellSpelled(rest)
  }

  lemma LengthSpelled(data: Bytes, offset: nat, field: Bytes, n: nat)
    requires SpellsLength(field, n) && At(data, offset, field)
    ensures DecodeLength(data, offset) == Success((n, offset + |field|))
  {
    assert data[offset] == data[offset..offset + |field|][0];
    if |field| > 1 {
      assert data[offset + 1..offset + |field|] == data[offset..offset + |field|][1..];
    }
  }

  lemma ElementSpelled(data: Bytes, offset: nat, tag: Octet, field: Bytes, content: Bytes)
    requires SpellsLength(field, |content|) && At(data, offset, [tag] + (field + content))
    ensures DecodeTlv(data, offset) == Success(Tlv(tag, content, offset + 1 + |field| + |content|))
  {
    hide SpellsLength, DecodeLength;
    AtSplit(data, offset, [tag], field + content);
    AtSplit(data, offset + 1, field, content);
    assert data[offset] == data[offset..offset + 1][0];
    LengthSpelled(data, offset + 1, field, |content|);
  }

  lemma ForestOfLeaf(data: Bytes, offset: nat)
    requires DecodeTlv(data, offset).Success? && !IsConstructed(DecodeTlv(data, offset).value.tag)
    requires Forest(data, DecodeTlv(data, offset).value.end).Success?
    ensures var t := DecodeTlv(data, offset).value;
            Forest(data, offset) == Success([Primitive(t.tag, t.content)] + Forest(data, t.end).value)
  {
  }

  lemma ForestOfBranch(data: Bytes, offset: nat)
    requires DecodeTlv(data, offset).Success? && IsConstructed(DecodeTlv(data, offset).value.tag)
    requires Forest(DecodeTlv(data, offset).value.content, 0).Success?
    requires Forest(data, DecodeTlv(data, offset).value.end).Success?
    ensures var t := DecodeTlv(data, offset).value;
            Forest(data, offset)
            == Success([Constructed(t.tag, Forest(t.content, 0).value)] + Forest(data, t.end).value)
  {
  }

  lemma {:induction false} SpellingIsRead(data: Bytes, offset: nat, f: Spelling)
    requires WellSpelled(f) && At(data, offset, Written(f)) && offset + |Written(f)| == |data|
    ensures Forest(data, offset) == Success(Trees(f))
    decreases f
  {
    hide DecodeTlv, SpellsLength, At, Forest, IsConstructed;
    match f
    case End => EmptyForest(data);
    case Leaf(tag, length, content, rest) =>
      AtSplit(data, offset, [tag] + (length + content), Written(rest));
      ElementSpelled(data, offset, tag, length, content);
      SpellingIsRead(data, offset + 1 + |length| + |content|, rest);
      ForestOfLeaf(data, offset);
    case Branch(tag, length, children, rest) =>
      var content := Written(children);
      AtSplit(data, offset, [tag] + (length + content), Written(rest));
      ElementSpelled(data, offset, tag, length, content);
      AtStart(content);
      SpellingIsRead(content, 0, children);
      SpellingIsRead(data, offset + 1 + |length| + |content|, rest);
      ForestOfBranch(data, offset);
  }

  /** Every spelling, with any definite length form at any node, has the tree it spells. */
  lemma SpellingHasTree(f: Spelling)
    requires WellSpelled(f)
    ensures Forest(Written(f), 0) == Success(Trees(f))
  {
    AtStart(Written(f));
    SpellingIsRead(Written(f), 0, f);
  }

  /** Two encodings of one tree are the same message, or are refused alike. */
  lemma LengthFormIndependence(a: Bytes, b: Bytes)
    requires Forest(a, 0).Success? && Forest(a, 0) == Forest(b, 0)
    ensures DecodeMessage(a) == DecodeMessage(b)
  {
    DecoderReadsTheTree(a);
    DecoderReadsTheTree(b);
  }

  /** An accepted message, spelled anew with any length forms, is accepted as the same message. */
  lemma RespelledIsAccepted(data: Bytes, f: Spelling)
    requires DecodeMessage(data).Success?
    requires WellSpelled(f) && Forest(data, 0) == Success(Trees(f))
    ensures DecodeMessage(Written(f)) == DecodeMessage(data)
  {
    hide Forest, DecodeMessage, Written, Trees, WellSpelled;
    SpellingHasTree(f);
    LengthFormIndependence(data, Written(f));
  }

  /** An accepted message is one spelling of its tree. */
  lemma AcceptedIsSpelled(data: Bytes) returns (f: Spelling)
    requires DecodeMessage(data).Success?
    ensures WellSpelled(f) && Written(f) == data && Forest(data, 0) == Success(Trees(f))
  {
    hide DecodeMessage;
    AcceptedHasTree(data);
    f := SpellingOf(data, 0);
    assert data[0..] == data;
  }

  lemma {:induction false} SpellingOf(data: Bytes, offset: nat) returns (f: Spelling)
    requires offset <= |data| && Forest(data, offset).Success?
    ensures WellSpelled(f) && Written(f) == data[offset..] && Forest(data, offset) == Success(Trees(f))
    decreases |data| - offset
  {
    hide DecodeTlv, SpellsLength;
    if offset == |data| {
      f := End;
    } else {
      ForestStep(data, offset);
      var t := DecodeTlv(data, offset).value;
      var rest := SpellingOf(data, t.end);
      var field := FieldOf(data, offset);
      if IsConstructed(t.tag) {
        var children := SpellingOf(t.content, 0);
        assert t.content[0..] == t.content;
        f := Branch(t.tag, field, children, rest);
      } else {
        f := Leaf(t.tag, field, t.content, rest);
      }
    }
  }

  lemma FieldOf(data: Bytes, offset: nat) returns (field: Bytes)
    requires DecodeTlv(data, offset).Success?
    ensures var t := DecodeTlv(data, offset).value;
            && SpellsLength(field, |t.content|)
            && data[offset..] == ([t.tag] + (field + t.content)) + data[t.end..]
  {
    var t := DecodeTlv(data, offset).value;
    var (n, start) := DecodeLength(data, offset + 1).value;
    field := data[offset + 1..start];
    if |field| > 1 {
      assert field[1..] == data[offset + 2..start];
    }
    assert data[offset..] == [data[offset]] + (field + data[start..t.end]) + data[t.end..];
  }

  /** The encoder's length field is the one shortest definite form of its length. */
  lemma LengthIsShortest(field: Bytes, n: nat)
    requires SpellsLength(field, n)
    ensures |LengthOctets(n)| <= |field|
    ensures |LengthOctets(n)| == |field| ==> LengthOctets(n) == field
  {
    if |field| > 1 {
      var octets := field[1..];
      FromBytesInverse(octets);
      ByteCountWithin(n, |octets|);
      if n >= 0x80 && ByteCount(n) == |octets| {
        assert field == [field[0]] + octets;
      }
    }
  }
}
