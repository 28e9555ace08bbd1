/** The read-only responder: trishul_snmp/responder/server.py. */
module Responder {
  import opened Wrappers
  import opened Oids
  import opened Asn1
  import opened Pdus
  import opened Lex
  import opened Sources
  import opened Octets
  import opened Messages
  import opened Ber
  import Text

  /** The values simulation rules yield while one request is answered, by position in the response. */
  type Readings = nat -> Reading

  function Max(a: int, b: int): (m: int)
    ensures m >= a && m >= b
  {
    if a < b then b else a
  }

  function Min(a: int, b: int): int { if a < b then a else b }

  function NextVarbind(s: Snapshot, oid: Oid, reading: Reading): RawVarBind
    requires Consistent(s)
  {
    match Next(s, oid)
    case None => RawVarBind(oid, EndOfMibViewValue)
    case Some(n) => RawVarBind(n, Read(s.values[n], reading))
  }

  function ExactVarbind(s: Snapshot, oid: Oid, reading: Reading): RawVarBind {
    RawVarBind(oid, if oid in s.values then Read(s.values[oid], reading) else NoSuchObjectValue)
  }

  // GETBULK in closed form

  /** The first position from `r` on that stores an end-of-view marker, which no chain can pass, or
      the length of the list. */
  function Stop(s: Snapshot, r: nat): (p: nat)
    requires Consistent(s) && r <= |s.oids|
    ensures r <= p <= |s.oids|
    ensures forall i :: r <= i < p ==> s.values[s.oids[i]] != Fixed(EndOfMibViewValue)
    ensures p < |s.oids| ==> s.values[s.oids[p]] == Fixed(EndOfMibViewValue)
    decreases |s.oids| - r
  {
    if r == |s.oids| || s.values[s.oids[r]] == Fixed(EndOfMibViewValue) then r else Stop(s, r + 1)
  }

  /** The position that cell `i` of a repeater's column shows: `i` successors beyond the first one. */
  function CellIndex(s: Snapshot, repeater: Oid, i: nat): (p: nat)
    requires Consistent(s)
    ensures Rank(s.oids, repeater) <= p <= |s.oids|
  {
    Min(Rank(s.oids, repeater) + i, Stop(s, Rank(s.oids, repeater)))
  }

  /** The OID a repeater's chain has reached after `i` repetitions. */
  function Reached(s: Snapshot, repeater: Oid, i: nat): Oid
    requires Consistent(s)
  {
    var p := CellIndex(s, repeater, i);
    if p == Rank(s.oids, repeater) then repeater else s.oids[p - 1]
  }

  function BulkCell(s: Snapshot, repeater: Oid, i: nat, reading: Reading): RawVarBind
    requires Consistent(s)
  {
    var p := CellIndex(s, repeater, i);
    if p < |s.oids| then RawVarBind(s.oids[p], Read(s.values[s.oids[p]], reading))
    else RawVarBind(Reached(s, repeater, i), EndOfMibViewValue)
  }

  function Split(oids: seq<Oid>, nonRepeaters: int): (n: nat)
    ensures n <= |oids|
  {
    Min(Max(nonRepeaters, 0), |oids|)
  }

  /** Row `i` of the repeaters' table. */
  function BulkRow(s: Snapshot, repeaters: seq<Oid>, i: nat, readings: Readings, base: nat): (row: seq<RawVarBind>)
    requires Consistent(s)
    ensures |row| == |repeaters|
    ensures forall c :: 0 <= c < |row| ==> row[c] == BulkCell(s, repeaters[c], i, readings(base + c))
  {
    seq(|repeaters|, c requires 0 <= c < |repeaters| => BulkCell(s, repeaters[c], i, readings(base + c)))
  }

  function BulkRows(s: Snapshot, repeaters: seq<Oid>, rows: nat, readings: Readings, base: nat): seq<RawVarBind>
    requires Consistent(s)
  {
    if rows == 0 then []
    else
      var above := BulkRows(s, repeaters, rows - 1, readings, base);
      above + BulkRow(s, repeaters, rows - 1, readings, base + |above|)
  }

  function NextVarbinds(s: Snapshot, oids: seq<Oid>, readings: Readings): (r: seq<RawVarBind>)
    requires Consistent(s)
    ensures |r| == |oids|
    ensures forall i :: 0 <= i < |oids| ==> r[i] == NextVarbind(s, oids[i], readings(i))
  {
    seq(|oids|, i requires 0 <= i < |oids| => NextVarbind(s, oids[i], readings(i)))
  }

  function Bulk(s: Snapshot, oids: seq<Oid>, nonRepeaters: int, maxRepetitions: int, readings: Readings)
    : seq<RawVarBind>
    requires Consistent(s)
  {
    var split := Split(oids, nonRepeaters);
    NextVarbinds(s, oids[..split], readings)
    + BulkRows(s, oids[split..], Max(maxRepetitions, 0), readings, split)
  }

  lemma StopPosition(s: Snapshot, repeater: Oid, i: nat)
    requires Consistent(s)
    ensures Rank(s.oids, Reached(s, repeater, i)) == CellIndex(s, repeater, i)
  {
    hide Rank, Stop, Less;
    var p := CellIndex(s, repeater, i);
    if p > Rank(s.oids, repeater) {
      RankOfElement(s.oids, p - 1);
    }
  }

  lemma ReachedZero(s: Snapshot, repeater: Oid)
    requires Consistent(s)
    ensures Reached(s, repeater, 0) == repeater
  {
  }

  /** One repetition: looking up the successor of what the chain has reached yields the cell of the
      closed form, and moving on to it, unless it is the end of the view, the next point of the chain. */
  lemma ReachedStep(s: Snapshot, repeater: Oid, i: nat, reading: Reading)
    requires Consistent(s)
    ensures var cell := NextVarbind(s, Reached(s, repeater, i), reading);
            && cell == BulkCell(s, repeater, i, reading)
            && Reached(s, repeater, i + 1)
               == if cell.value == EndOfMibViewValue then Reached(s, repeater, i) else cell.oid
  {
    hide Rank, Stop, Less, Sorted;
    StopPosition(s, repeater, i);
  }

  /** Section 4.2.3 of RFC 3416: the length of the response, and every one of its cells. */
  lemma BulkClosedForm(s: Snapshot, oids: seq<Oid>, nonRepeaters: int, maxRepetitions: int, readings: Readings)
    requires Consistent(s)
    ensures var split := Split(oids, nonRepeaters);
            var rows, columns := Max(maxRepetitions, 0), |oids| - split;
            var r := Bulk(s, oids, nonRepeaters, maxRepetitions, readings);
            && |r| == split + rows * columns
            && (forall j :: 0 <= j < split ==> r[j] == NextVarbind(s, oids[j], readings(j)))
            && (forall i, c :: 0 <= i < rows && 0 <= c < columns ==>
                  0 <= CellAt(split, columns, i, c) < |r|
                  && r[CellAt(split, columns, i, c)]
                     == BulkCell(s, oids[split + c], i, readings(CellAt(split, columns, i, c))))
  {
    hide BulkCell, BulkRows, NextVarbind, Consistent;
    var split := Split(oids, nonRepeaters);
    var rows, columns := Max(maxRepetitions, 0), |oids| - split;
    var repeaters := oids[split..];
    var head := NextVarbinds(s, oids[..split], readings);
    var tail := BulkRows(s, repeaters, rows, readings, split);
    BulkRowsLength(s, repeaters, rows, readings, split);
    forall i, c | 0 <= i < rows && 0 <= c < columns
      ensures 0 <= CellAt(split, columns, i, c) < |head + tail|
      ensures (head + tail)[CellAt(split, columns, i, c)]
              == BulkCell(s, oids[split + c], i, readings(CellAt(split, columns, i, c)))
    {
      BulkRowsCell(s, repeaters, rows, readings, split, i, c);
      assert repeaters[c] == oids[split + c];
    }
  }

  function CellAt(split: nat, columns: nat, i: nat, c: nat): nat {
    split + i * columns + c
  }

  lemma {:induction false} BulkRowsLength(s: Snapshot, repeaters: seq<Oid>, rows: nat, readings: Readings, base: nat)
    requires Consistent(s)
    ensures |BulkRows(s, repeaters, rows, readings, base)| == rows * |repeaters|
  {
    hide BulkRow, Consistent;
    if rows > 0 {
      BulkRowsLength(s, repeaters, rows - 1, readings, base);
      assert rows * |repeaters| == (rows - 1) * |repeaters| + |repeaters|;
    }
  }

  lemma BulkRowsStart(s: Snapshot, repeaters: seq<Oid>, readings: Readings, base: nat)
    requires Consistent(s)
    ensures BulkRows(s, repeaters, 0, readings, base) == []
  {
  }

  /** The rows so far and the next one, which starts where they end. */
  lemma BulkRowsStep(s: Snapshot, repeaters: seq<Oid>, rows: nat, readings: Readings, base: nat)
    requires Consistent(s)
    ensures var sofar := BulkRows(s, repeaters, rows, readings, base);
            BulkRows(s, repeaters, rows + 1, readings, base)
            == sofar + BulkRow(s, repeaters, rows, readings, base + |sofar|)
  {
    hide BulkRow, Consistent;
  }

  lemma {:induction false} BulkRowsCell(s: Snapshot, repeaters: seq<Oid>, rows: nat, readings: Readings, base: nat,
                                        i: nat, c: nat)
    requires Consistent(s) && i < rows && c < |repeaters|
    ensures base <= CellAt(base, |repeaters|, i, c) < base + |BulkRows(s, repeaters, rows, readings, base)|
    ensures BulkRows(s, repeaters, rows, readings, base)[CellAt(base, |repeaters|, i, c) - base]
            == BulkCell(s, repeaters[c], i, readings(CellAt(base, |repeaters|, i, c)))
  {
    hide BulkCell, Consistent, BulkRows, BulkRow;
    BulkRowsLength(s, repeaters, rows - 1, readings, base);
    BulkRowsStep(s, repeaters, rows - 1, readings, base);
    if i < rows - 1 {
      BulkRowsCell(s, repeaters, rows - 1, readings, base, i, c);
    }
  }

  /** `k` applications of the successor. */
  function Iterate(s: Snapshot, oid: Oid, k: nat): Option<Oid> {
    if k == 0 then Some(oid)
    else match Iterate(s, oid, k - 1)
         case None => None
         case Some(o) => Next(s, o)
  }

  lemma IterateZero(s: Snapshot, oid: Oid)
    ensures Iterate(s, oid, 0) == Some(oid)
  {
  }

  lemma {:induction false} IterateIsIndex(s: Snapshot, oid: Oid, k: nat)
    requires Consistent(s) && k > 0
    ensures var r := Rank(s.oids, oid);
            Iterate(s, oid, k) == if r + k <= |s.oids| then Some(s.oids[r + k - 1]) else None
  {
    if k > 1 {
      IterateIsIndex(s, oid, k - 1);
      var r := Rank(s.oids, oid);
      if r + k - 1 <= |s.oids| {
        RankOfElement(s.oids, r + k - 2);
      }
    } else {
      assert Iterate(s, oid, 0) == Some(oid);
    }
  }

  /** What section 4.2.3 of RFC 3416 asks of cell `i` of a column: the (i+1)-fold successor and its
      value, or endOfMibView named by the last OID of the exhausted chain. */
  predicate ShowsSuccessor(s: Snapshot, repeater: Oid, i: nat, cell: RawVarBind, reading: Reading) {
    match Iterate(s, repeater, i + 1)
    case Some(o) => o in s.values && cell == RawVarBind(o, Read(s.values[o], reading))
    case None => cell.value == EndOfMibViewValue
                 && exists j :: 0 <= j <= i && Iterate(s, repeater, j) == Some(cell.oid)
                                && Iterate(s, repeater, j + 1) == None
  }

  /** A column shows the successors if and only if no end-of-view marker is stored among the OIDs it
      passes, the last OID of the store excepted. */
  lemma BulkIteratesSuccessorExactly(s: Snapshot, repeater: Oid, i: nat, reading: Reading)
    requires Consistent(s)
    ensures ShowsSuccessor(s, repeater, i, BulkCell(s, repeater, i, reading), reading)
       <==> forall p :: Rank(s.oids, repeater) <= p < Rank(s.oids, repeater) + i && p + 1 < |s.oids| ==>
              s.values[s.oids[p]] != Fixed(EndOfMibViewValue)
  {
    hide Rank, Stop, Less, Sorted, Iterate;
    var r := Rank(s.oids, repeater);
    var p := CellIndex(s, repeater, i);
    var cell := BulkCell(s, repeater, i, reading);
    IterateZero(s, repeater);
    IterateIsIndex(s, repeater, i + 1);
    if r + i < |s.oids| {
      if p < r + i {
        DistinctOids(s, p, r + i);
      }
    } else if p >= |s.oids| - 1 {
      var j := if p == |s.oids| then p - r else p + 1 - r;
      IterateIsIndex(s, repeater, j + 1);
      if j > 0 {
        IterateIsIndex(s, repeater, j);
      }
      assert Iterate(s, repeater, j) == Some(cell.oid);
    } else {
      forall j: nat | j <= i && Iterate(s, repeater, j + 1) == None
        ensures Iterate(s, repeater, j) != Some(cell.oid)
      {
        IterateIsIndex(s, repeater, j + 1);
        if j > 0 {
          IterateIsIndex(s, repeater, j);
          if r + j == |s.oids| {
            DistinctOids(s, p, |s.oids| - 1);
          }
        }
      }
    }
  }

  lemma DistinctOids(s: Snapshot, i: nat, j: nat)
    requires Consistent(s) && i < j < |s.oids|
    ensures s.oids[i] != s.oids[j]
  {
    Irreflexive(s.oids[i]);
  }

  /** A stored end-of-view marker ends the view for GETBULK, though not for the store. */
  lemma StoredMarkerStalls(a: Oid, b: Oid, v: Value, reading: Reading)
    requires Less(a, b) && Less([], a) && v != EndOfMibViewValue
    ensures var s := Snapshot([a, b], map[a := Fixed(EndOfMibViewValue), b := Fixed(v)]);
            && Consistent(s)
            && Next(s, a) == Some(b)
            && BulkCell(s, [], 1, reading) == RawVarBind(a, EndOfMibViewValue)
  {
    var s := Snapshot([a, b], map[a := Fixed(EndOfMibViewValue), b := Fixed(v)]);
    Asymmetric(a, b);
    RankUnique(s.oids, a, 1);
    RankUnique(s.oids, [], 0);
  }

  // Answers

  function ResponsePdu(request: Pdu, varbinds: seq<RawVarBind>, errorStatus: int, errorIndex: int): Pdu {
    Pdu(Response, Body(request.body.requestId, errorStatus, errorIndex, varbinds))
  }

  const NOT_WRITABLE := 17

  function RequestOids(request: Pdu): (oids: seq<Oid>)
    ensures |oids| == |request.body.varbinds|
    ensures forall i :: 0 <= i < |oids| ==> oids[i] == request.body.varbinds[i].oid
  {
    seq(|request.body.varbinds|, i requires 0 <= i < |request.body.varbinds| => request.body.varbinds[i].oid)
  }

  function ExactVarbinds(s: Snapshot, oids: seq<Oid>, readings: Readings): (r: seq<RawVarBind>)
    ensures |r| == |oids|
    ensures forall i :: 0 <= i < |oids| ==> r[i] == ExactVarbind(s, oids[i], readings(i))
  {
    seq(|oids|, i requires 0 <= i < |oids| => ExactVarbind(s, oids[i], readings(i)))
  }

  function BuildResponse(s: Snapshot, request: Pdu, readings: Readings): Option<Pdu>
    requires Consistent(s)
  {
    var oids := RequestOids(request);
    match request.pduType
    case GetRequest => Some(ResponsePdu(request, ExactVarbinds(s, oids, readings), 0, 0))
    case GetNextRequest => Some(ResponsePdu(request, NextVarbinds(s, oids, readings), 0, 0))
    case GetBulkRequest =>
      Some(ResponsePdu(request, Bulk(s, oids, request.body.errorStatus, request.body.errorIndex, readings), 0, 0))
    case SetRequest =>
      Some(ResponsePdu(request, request.body.varbinds, NOT_WRITABLE, if request.body.varbinds == [] then 0 else 1))
    case _ => None
  }

  /** Every answer has the request's id and, but for SET, no error; GET repeats the names with the
      stored values or noSuchObject, and SET is refused as notWritable with the request's varbinds. */
  lemma AnswersByKind(s: Snapshot, request: Pdu, readings: Readings)
    requires Consistent(s)
    ensures var r := BuildResponse(s, request, readings);
            && (r.Some? <==> request.pduType in {GetRequest, GetNextRequest, GetBulkRequest, SetRequest})
            && (r.Some? ==>
                  && r.value.pduType == Response
                  && r.value.body.requestId == request.body.requestId
                  && (request.pduType != SetRequest ==> r.value.body.errorStatus == 0 && r.value.body.errorIndex == 0))
            && (request.pduType == SetRequest ==>
                  && r.value.body.varbinds == request.body.varbinds
                  && r.value.body.errorStatus == 17
                  && (r.value.body.errorIndex == 1 <==> request.body.varbinds != []))
            && (request.pduType in {GetRequest, GetNextRequest} ==> |r.value.body.varbinds| == |request.body.varbinds|)
            && (request.pduType == GetRequest ==> forall i :: 0 <= i < |request.body.varbinds| ==>
                  var name, answer := request.body.varbinds[i].oid, r.value.body.varbinds[i];
                  && answer.oid == name
                  && (name in s.values && s.values[name].Fixed? ==> answer.value == s.values[name].value)
                  && (name in s.values && s.values[name].Rule? ==> answer.value == readings(i))
                  && (name !in s.values ==> answer.value == NoSuchObjectValue))
  {
    hide Bulk, NextVarbind, Consistent;
  }

  /** What section 4.2.2 of RFC 3416 asks of a GETNEXT varbind: the least stored OID after the one asked for,
      with its value, or endOfMibView under the name asked for when there is none. */
  predicate AnswersNext(s: Snapshot, oid: Oid, vb: RawVarBind) {
    if IsNext(s, oid, None) then vb == RawVarBind(oid, EndOfMibViewValue)
    else IsNext(s, oid, Some(vb.oid)) && vb.oid in s.values && ReadsAs(s.values[vb.oid], vb.value)
  }

  lemma NextVarbindAnswers(s: Snapshot, oid: Oid, reading: Reading)
    requires Consistent(s)
    ensures AnswersNext(s, oid, NextVarbind(s, oid, reading))
  {
    hide Next, Less;
    NextIsLeastGreater(s, oid);
  }

  /** A GETNEXT answer, position by position. */
  lemma NextAnswers(s: Snapshot, request: Pdu, readings: Readings)
    requires Consistent(s) && request.pduType == GetNextRequest
    ensures BuildResponse(s, request, readings).Some?
    ensures var asked := request.body.varbinds;
            var answer := BuildResponse(s, request, readings).value.body.varbinds;
            && |answer| == |asked|
            && forall i :: 0 <= i < |asked| ==> AnswersNext(s, asked[i].oid, answer[i])
  {
    hide NextVarbind, Consistent, AnswersNext, Bulk;
    var asked := request.body.varbinds;
    forall i | 0 <= i < |asked|
      ensures AnswersNext(s, asked[i].oid, NextVarbind(s, asked[i].oid, readings(i)))
    {
      NextVarbindAnswers(s, asked[i].oid, readings(i));
    }
  }

  /** How many varbinds of the request are answered once: non-repeaters travel where other requests have their
      error status. */
  lemma SplitExactly(oids: seq<Oid>, nonRepeaters: int)
    ensures Split(oids, nonRepeaters)
            == if nonRepeaters < 0 then 0 else if nonRepeaters > |oids| then |oids| else nonRepeaters
  {
  }

  /** A GETBULK answer (section 4.2.3 of RFC 3416), non-repeaters and max-repetitions being the request's error
      status and index: how many varbinds there are, and the ones that are not repeated. */
  lemma BulkAnswers(s: Snapshot, request: Pdu, readings: Readings)
    requires Consistent(s) && request.pduType == GetBulkRequest
    ensures BuildResponse(s, request, readings).Some?
    ensures var asked := request.body.varbinds;
            var n, nonRepeaters, maxRepetitions := |asked|, request.body.errorStatus, request.body.errorIndex;
            var split := if nonRepeaters < 0 then 0 else if nonRepeaters > n then n else nonRepeaters;
            var rows, columns := if maxRepetitions < 0 then 0 else maxRepetitions, n - split;
            var answer := BuildResponse(s, request, readings).value.body.varbinds;
            && |answer| == split + rows * columns
            && forall i :: 0 <= i < split ==> AnswersNext(s, asked[i].oid, answer[i])
  {
    hide NextVarbind, Consistent, AnswersNext, Bulk, BulkCell, Rank, Split;
    var oids := RequestOids(request);
    SplitExactly(oids, request.body.errorStatus);
    var split := Split(oids, request.body.errorStatus);
    BulkClosedForm(s, oids, request.body.errorStatus, request.body.errorIndex, readings);
    forall i | 0 <= i < split
      ensures AnswersNext(s, oids[i], NextVarbind(s, oids[i], readings(i)))
    {
      NextVarbindAnswers(s, oids[i], readings(i));
    }
  }

  /** The varbind at position `k` shows the (i+1)-fold successor of the repeater, exactly when no end-of-view
      marker is stored among the OIDs passed on the way, the store's last excepted. */
  ghost predicate CellShows(s: Snapshot, repeater: Oid, i: nat, answer: seq<RawVarBind>, k: int, readings: Readings)
    requires Consistent(s)
  {
    && 0 <= k < |answer|
    && (ShowsSuccessor(s, repeater, i, answer[k], readings(k))
        <==> forall p :: Rank(s.oids, repeater) <= p < Rank(s.oids, repeater) + i && p + 1 < |s.oids| ==>
               s.values[s.oids[p]] != Fixed(EndOfMibViewValue))
  }

  lemma BulkCellShows(s: Snapshot, oids: seq<Oid>, nonRepeaters: int, maxRepetitions: int, readings: Readings, i: nat,
                      c: nat)
    requires Consistent(s) && i < maxRepetitions && Split(oids, nonRepeaters) + c < |oids|
    ensures var split := Split(oids, nonRepeaters);
            CellShows(s, oids[split + c], i, Bulk(s, oids, nonRepeaters, maxRepetitions, readings),
                      CellAt(split, |oids| - split, i, c), readings)
  {
    hide NextVarbind, Consistent, Bulk, BulkCell, ShowsSuccessor, Rank, Split, CellAt;
    var split := Split(oids, nonRepeaters);
    BulkClosedForm(s, oids, nonRepeaters, maxRepetitions, readings);
    assert 0 <= CellAt(split, |oids| - split, i, c);
    BulkIteratesSuccessorExactly(s, oids[split + c], i, readings(CellAt(split, |oids| - split, i, c)));
  }

  /** Cell i of repeater c stands at split + i * R + c of a GETBULK answer. */
  lemma BulkAnswerCell(s: Snapshot, request: Pdu, readings: Readings, i: nat, c: nat)
    requires Consistent(s) && request.pduType == GetBulkRequest
    requires i < request.body.errorIndex
    requires var nonRepeaters := if request.body.errorStatus < 0 then 0 else request.body.errorStatus;
             nonRepeaters + c < |request.body.varbinds|
    ensures BuildResponse(s, request, readings).Some?
    ensures var split := if request.body.errorStatus < 0 then 0 else request.body.errorStatus;
            var columns := |request.body.varbinds| - split;
            CellShows(s, request.body.varbinds[split + c].oid, i,
                      BuildResponse(s, request, readings).value.body.varbinds, split + i * columns + c, readings)
  {
    hide NextVarbind, Consistent, Bulk, CellShows, Split;
    var oids := RequestOids(request);
    SplitExactly(oids, request.body.errorStatus);
    BulkCellShows(s, oids, request.body.errorStatus, request.body.errorIndex, readings, i, c);
  }

  /** What one datagram makes the responder send: nothing for malformed messages, foreign communities
      and PDUs it does not answer. `communities` is `None` when every community is allowed. */
  function HandleDatagram(communities: Option<set<Bytes>>, s: Snapshot, data: Bytes, readings: Readings)
    : Outcome<Option<Bytes>>
    requires Consistent(s)
  {
    var m := DecodeMessage(data);
    if m.Failure? then Success(None)
    else if communities.Some? && m.value.community !in communities.value then Success(None)
    else
      var response := BuildResponse(s, m.value.pdu, readings);
      if response.None? then Success(None)
      else
        var encoded :- EncodeMessage(Message(m.value.version, m.value.community, response.value));
        Success(Some(encoded))
  }

  /** What is sent answers a well-formed message of an allowed community, in that community, and reads as the
      normal form of the answer to its PDU, which is that answer exactly when the wire can carry it. An
      answer that cannot be encoded raises; everything else is met with silence. */
  lemma AnswersAreAddressed(communities: Option<set<Bytes>>, s: Snapshot, data: Bytes, readings: Readings)
    requires Consistent(s)
    ensures var sent := HandleDatagram(communities, s, data, readings);
            var m := DecodeMessage(data);
            && (sent == Success(None) <==>
                  || m.Failure? || (communities.Some? && m.value.community !in communities.value)
                  || m.value.pdu.pduType in {Response, InformRequest, SnmpV2Trap})
            && (sent != Success(None) ==>
                  && BuildResponse(s, m.value.pdu, readings).Some?
                  && var response := BuildResponse(s, m.value.pdu, readings).value;
                  && (sent.Success? <==> EncodableBody(response.body))
                  && (sent.Success? ==>
                        && (Fits(|sent.value.value|) ==>
                              DecodeMessage(sent.value.value)
                              == Success(Message(V2C_VERSION, m.value.community, NormalPdu(response))))
                        && (NormalPdu(response) == response <==> RepresentableBody(response.body))))
  {
    hide EncodeMessage, DecodeMessage, RepresentableBody, EncodableBody, NormalPdu, Bulk, NextVarbinds, ExactVarbinds,
      Consistent, Fits;
    var m := DecodeMessage(data);
    if m.Success? {
      DecodedMessageRepresentable(data);
      var response := BuildResponse(s, m.value.pdu, readings);
      if response.Some? {
        NormalMessageIsRead(Message(m.value.version, m.value.community, response.value));
      }
    }
  }

  /** Two stored values that are encoded but come back changed: address text with leading zeros, and an
      identifier with a negative second arc. */
  lemma AlteredAnswers(s: Snapshot, request: Pdu, readings: Readings)
    requires Consistent(s) && request.pduType == GetRequest && |request.body.varbinds| == 2
    requires var a, b := request.body.varbinds[0].oid, request.body.varbinds[1].oid;
             && a in s.values && s.values[a] == Fixed(IpAddressValue("010.0.0.1"))
             && b in s.values && s.values[b] == Fixed(ObjectIdentifierValue([1, -5]))
    ensures var sent := BuildResponse(s, request, readings).value;
            var read := NormalPdu(sent);
            && sent.body.varbinds[0].value == IpAddressValue("010.0.0.1")
            && read.body.varbinds[0].value == IpAddressValue("10.0.0.1")
            && sent.body.varbinds[1].value == ObjectIdentifierValue([1, -5])
            && read.body.varbinds[1].value == ObjectIdentifierValue([0, 35])
            && EncodableValue(sent.body.varbinds[0].value) && EncodableValue(sent.body.varbinds[1].value)
            && !Representable(sent.body.varbinds[0].value) && !Representable(sent.body.varbinds[1].value)
  {
    hide Consistent, NormalValue, EncodableValue, Representable, Less, Rank, Bulk, NextVarbinds;
    ZerosAreLost();
    ArcIsLost();
  }

  class V2cResponder {
    const source: InMemoryObjectSource

    constructor (source: InMemoryObjectSource)
      ensures this.source == source
    {
      this.source := source;
    }

    method LookupExactVarbind(oid: Oid, reading: Reading) returns (vb: RawVarBind)
      ensures vb == ExactVarbind(source.View(), oid, reading)
    {
      var value := source.LookupExact(oid, reading);
      vb := RawVarBind(oid, if value.None? then NoSuchObjectValue else value.value);
    }

    method LookupNextVarbind(oid: Oid, reading: Reading) returns (vb: RawVarBind)
      requires source.Valid()
      ensures vb == NextVarbind(source.View(), oid, reading)
    {
      var found := source.LookupNext(oid, reading);
      match found
      case None => vb := RawVarBind(oid, EndOfMibViewValue);
      case Some(p) => vb := RawVarBind(p.0, p.1);
    }

    method LookupNextVarbinds(oids: seq<Oid>, readings: Readings) returns (varbinds: seq<RawVarBind>)
      requires source.Valid()
      ensures varbinds == NextVarbinds(source.View(), oids, readings)
    {
      hide NextVarbind;
      varbinds := [];
      for i := 0 to |oids|
        invariant |varbinds| == i
        invariant forall j :: 0 <= j < i ==> varbinds[j] == NextVarbind(source.View(), oids[j], readings(j))
      {
        var vb := LookupNextVarbind(oids[i], readings(i));
        varbinds := varbinds + [vb];
      }
    }

    method LookupExactVarbinds(oids: seq<Oid>, readings: Readings) returns (varbinds: seq<RawVarBind>)
      requires source.Valid()
      ensures varbinds == ExactVarbinds(source.View(), oids, readings)
    {
      hide ExactVarbind;
      varbinds := [];
      for i := 0 to |oids|
        invariant |varbinds| == i
        invariant forall j :: 0 <= j < i ==> varbinds[j] == ExactVarbind(source.View(), oids[j], readings(j))
      {
        var vb := LookupExactVarbind(oids[i], readings(i));
        varbinds := varbinds + [vb];
      }
    }

    /** One repetition: looks up the successor of every repeater's current OID, and moves those on that
        have not reached the end of the view. */
    method Repeat(repeaters: seq<Oid>, row: nat, start: seq<Oid>, readings: Readings, base: nat)
      returns (cells: seq<RawVarBind>, currentOids: seq<Oid>)
      requires source.Valid()
      requires |start| == |repeaters|
      requires forall c :: 0 <= c < |repeaters| ==> start[c] == Reached(source.View(), repeaters[c], row)
      ensures cells == BulkRow(source.View(), repeaters, row, readings, base)
      ensures |currentOids| == |repeaters|
      ensures forall c :: 0 <= c < |repeaters| ==> currentOids[c] == Reached(source.View(), repeaters[c], row + 1)
    {
      hide NextVarbind, BulkCell, Reached, Next, Consistent;
      ghost var s := source.View();
      cells, currentOids := [], start;
      for index := 0 to |repeaters|
        invariant |cells| == index && |currentOids| == |repeaters|
        invariant forall c :: 0 <= c < index ==> cells[c] == BulkCell(s, repeaters[c], row, readings(base + c))
        invariant forall c :: 0 <= c < index ==> currentOids[c] == Reached(s, repeaters[c], row + 1)
        invariant forall c :: index <= c < |repeaters| ==> currentOids[c] == Reached(s, repeaters[c], row)
      {
        var vb := LookupNextVarbind(currentOids[index], readings(base + index));
        ReachedStep(s, repeaters[index], row, readings(base + index));
        cells := cells + [vb];
        if vb.value != EndOfMibViewValue {
          currentOids := currentOids[index := vb.oid];
        }
      }
    }

    /** The nested loops of GETBULK compute the closed form. */
    method BuildBulkVarbinds(oids: seq<Oid>, nonRepeaters: int, maxRepetitions: int, readings: Readings)
      returns (response: seq<RawVarBind>)
      requires source.Valid()
      ensures response == Bulk(source.View(), oids, nonRepeaters, maxRepetitions, readings)
    {
      hide NextVarbind, BulkCell, Reached, Next, BulkRows, BulkRow, NextVarbinds, Consistent, Split, Max;
      ghost var s := source.View();
      var split := Split(oids, nonRepeaters);
      var head := LookupNextVarbinds(oids[..split], readings);
      response := head;
      var repeaters := oids[split..];
      var currentOids := repeaters;
      ReachedAtFirst(s, repeaters);
      BulkRowsStart(s, repeaters, readings, split);
      for row := 0 to Max(maxRepetitions, 0)
        invariant response == head + BulkRows(s, repeaters, row, readings, split)
        invariant |currentOids| == |repeaters|
        invariant forall c :: 0 <= c < |repeaters| ==> currentOids[c] == Reached(s, repeaters[c], row)
      {
        BulkRowsStep(s, repeaters, row, readings, split);
        var cells;
        cells, currentOids := Repeat(repeaters, row, currentOids, readings, |response|);
        response := response + cells;
      }
    }

    method BuildResponsePdu(request: Pdu, readings: Readings) returns (r: Option<Pdu>)
      requires source.Valid()
      ensures r == BuildResponse(source.View(), request, readings)
    {
      var oids := RequestOids(request);
      match request.pduType
      case GetRequest =>
        var varbinds := LookupExactVarbinds(oids, readings);
        r := Some(ResponsePdu(request, varbinds, 0, 0));
      case GetNextRequest =>
        var varbinds := LookupNextVarbinds(oids, readings);
        r := Some(ResponsePdu(request, varbinds, 0, 0));
      case GetBulkRequest =>
        var varbinds := BuildBulkVarbinds(oids, request.body.errorStatus, request.body.errorIndex, readings);
        r := Some(ResponsePdu(request, varbinds, 0, 0));
      case SetRequest =>
        var errorIndex := if |request.body.varbinds| > 0 then 1 else 0;
        r := Some(ResponsePdu(request, request.body.varbinds, NOT_WRITABLE, errorIndex));
      case _ =>
        r := None;
    }
  }

  lemma ReachedAtFirst(s: Snapshot, repeaters: seq<Oid>)
    requires Consistent(s)
    ensures forall c :: 0 <= c < |repeaters| ==> Reached(s, repeaters[c], 0) == repeaters[c]
  {
  }
}
