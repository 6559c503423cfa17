/** Compressed names and response messages as a sender encodes them (section 4.1 of RFC 1035), and what decoding
    them gives (internal/discovery/mdns.go). */
module MdnsMessages {
  import opened Bytes
  import opened Text
  import opened Mdns

  // ----- compressed names -----

  /** One label and what follows it. */
  lemma OneInFront(data: bytes, start: nat, piece: bytes, budget: nat)
    requires Readable(piece) && start + 1 + |piece| < |data|
    requires data[start] == |piece| && data[start + 1..start + 1 + |piece|] == piece
    requires Labels(data, start + 1 + |piece|, budget).Some?
    ensures Labels(data, start, budget) == Some([piece] + Labels(data, start + 1 + |piece|, budget).value)
    ensures EndOf(data, start) == EndOf(data, start + 1 + |piece|)
  {
  }

  /** Readable labels written out in front of a name are read before it. */
  lemma {:induction false} LabelsInFront(data: bytes, start: nat, front: seq<bytes>, rest: bytes, budget: nat)
    requires start <= |data| && data[start..] == Encode(front) + rest && rest != []
    requires forall i :: 0 <= i < |front| ==> Readable(front[i])
    requires Labels(data, |data| - |rest|, budget).Some?
    ensures Labels(data, start, budget) == Some(front + Labels(data, |data| - |rest|, budget).value)
    ensures EndOf(data, start) == EndOf(data, |data| - |rest|)
    decreases |front|
  {
    hide Labels, EndOf;
    var end := |data| - |rest|;
    if front == [] {
      assert start == end;
      assert [] + Labels(data, end, budget).value == Labels(data, end, budget).value;
    } else {
      var piece := front[0];
      assert data[start..] == [|piece| % 256] + piece + (Encode(front[1..]) + rest);
      HeadStored(data, start, |piece| % 256, piece, Encode(front[1..]) + rest);
      LabelsInFront(data, start + 1 + |piece|, front[1..], rest, budget);
      OneInFront(data, start, piece, budget);
      assert [piece] + (front[1..] + Labels(data, end, budget).value) == front + Labels(data, end, budget).value;
    }
  }

  /** Two pointer bytes name the offset in their low fourteen bits. */
  lemma PointerNames(data: bytes, cur: nat, target: nat, budget: nat)
    requires cur + 1 < |data| && target < 0x4000
    requires data[cur] == 0xC0 + target / 256 && data[cur + 1] == target % 256
    ensures Labels(data, cur, budget + 1) == Labels(data, target, budget) && EndOf(data, cur) == cur + 2
  {
  }

  /** A name written as some labels, or none, and a pointer to other labels decodes to all of them, and the caller
      resumes just past the pointer. */
  lemma CompressedName(data: bytes, start: nat, front: seq<bytes>, target: nat, labels: seq<bytes>, tail: bytes)
    requires start <= |data| && target < 0x4000
    requires data[start..] == Encode(front) + ([0xC0 + target / 256, target % 256] + tail)
    requires Stored(data, target, labels)
    requires forall i :: 0 <= i < |front| ==> Readable(front[i])
    requires forall i :: 0 <= i < |labels| ==> Readable(labels[i])
    ensures Parse(data, start) == (Join(front + labels, DOT), start + |Encode(front)| + 2)
  {
    hide Walk, Labels, EndOf, Encode, Join, Stored, Readable;
    var rest := [0xC0 + target / 256, target % 256] + tail;
    Cut(data, start, Encode(front), rest);
    var at := start + |Encode(front)|;
    assert data[at..][0] == data[at] && data[at..][1] == data[at + 1];
    StoredWithin(data, target, labels, MAX_JUMPS - 1);
    PointerNames(data, at, target, MAX_JUMPS - 1);
    LabelsInFront(data, start, front, rest, MAX_JUMPS);
    ParseResolvesNames(data, start);
  }

  lemma Cut(data: bytes, at: nat, x: bytes, y: bytes)
    requires at <= |data| && data[at..] == x + y
    ensures at + |x| <= |data| && data[at..at + |x|] == x && data[at + |x|..] == y
  {
    var suffix := data[at..];
    assert suffix[..|x|] == x && suffix[|x|..] == y;
  }

  // ----- messages -----

  function U16(v: nat): (b: bytes)
    requires v < 65536
    ensures |b| == 2
  {
    [v / 256, v % 256]
  }

  predicate Name(labels: seq<bytes>) {
    forall i :: 0 <= i < |labels| ==> 1 <= |labels[i]| < 0xC0
  }

  /** A record; `meta` is its class and time to live. */
  datatype Rr =
    | ARecord(owner: seq<bytes>, meta: bytes, ip: bytes)
    | PtrRecord(owner: seq<bytes>, meta: bytes, target: seq<bytes>)
    | OtherRecord(owner: seq<bytes>, meta: bytes, kind: nat, payload: bytes)
  {
    function Type(): nat {
      match this case ARecord(_, _, _) => 1 case PtrRecord(_, _, _) => 12 case OtherRecord(_, _, kind, _) => kind
    }

    function Data(): bytes {
      match this
      case ARecord(_, _, ip) => ip
      case PtrRecord(_, _, target) => Encode(target) + [0]
      case OtherRecord(_, _, _, payload) => payload
    }

    predicate Valid() {
      && Name(owner) && |meta| == 6 && Type() < 65536 && |Data()| < 65536
      && (ARecord? ==> |ip| == 4)
      && (PtrRecord? ==> Name(target))
      && (OtherRecord? ==> kind != 12 && !(kind == 1 && |payload| == 4))
    }
  }

  /** The fixed part of a record and its data, in front of `tail`. */
  function Body(kind: nat, meta: bytes, rdata: bytes, tail: bytes): bytes
    requires kind < 65536 && |rdata| < 65536
  {
    U16(kind) + (meta + (U16(|rdata|) + (rdata + tail)))
  }

  function Wire(rr: Rr, tail: bytes): bytes
    requires rr.Valid()
  {
    Encode(rr.owner) + ([0] + Body(rr.Type(), rr.meta, rr.Data(), tail))
  }

  datatype Question = Question(name: seq<bytes>, meta: bytes) {
    predicate Valid() { Name(name) && |meta| == 4 }
  }

  /** The questions one after the other, in front of `tail`. */
  function QuestionBytes(qs: seq<Question>, tail: bytes): bytes
    requires forall i :: 0 <= i < |qs| ==> qs[i].Valid()
  {
    if qs == [] then tail else Encode(qs[0].name) + ([0] + (qs[0].meta + QuestionBytes(qs[1..], tail)))
  }

  /** The records one after the other, in front of `tail`. */
  function RecordBytes(rrs: seq<Rr>, tail: bytes): bytes
    requires forall i :: 0 <= i < |rrs| ==> rrs[i].Valid()
  {
    if rrs == [] then tail else Wire(rrs[0], RecordBytes(rrs[1..], tail))
  }

  /** What a record says: an address record its own host and address, a pointer record the host it points to, with
      the service its own name stands for. */
  function Says(rr: Rr, hostOf: bytes -> bytes, serviceOf: bytes -> bytes): seq<Found> {
    match rr
    case ARecord(owner, _, ip) =>
      var name := Join(owner, DOT);
      if hostOf(name) == [] then [] else [Found(hostOf(name), serviceOf(name), Recorded(ip))]
    case PtrRecord(owner, _, target) =>
      var host := hostOf(Join(target, DOT));
      if host == [] then [] else [Found(host, serviceOf(Join(owner, DOT)), Sender)]
    case OtherRecord(_, _, _, _) => []
  }

  function AllSay(rrs: seq<Rr>, hostOf: bytes -> bytes, serviceOf: bytes -> bytes): seq<Found> {
    if rrs == [] then [] else Says(rrs[0], hostOf, serviceOf) + AllSay(rrs[1..], hostOf, serviceOf)
  }

  // ----- reading it back -----

  lemma ReadU16(data: bytes, at: nat, v: nat)
    requires v < 65536 && at + 2 <= |data| && data[at..at + 2] == U16(v)
    ensures Be16(data, at) == v
  {
    assert data[at] == data[at..at + 2][0] && data[at + 1] == data[at..at + 2][1];
  }

  lemma ReadName(data: bytes, at: nat, labels: seq<bytes>, rest: bytes)
    requires Name(labels) && at <= |data| && data[at..] == Encode(labels) + ([0] + rest)
    ensures Labels(data, at, MAX_JUMPS) == Some(labels)
    ensures EndOf(data, at) <= |data| && data[EndOf(data, at)..] == rest
  {
    hide Labels, EndOf, Encode, Stored;
    EncodeStores(data, at, labels, [0] + rest);
    StoredWithin(data, at, labels, MAX_JUMPS);
    Cut(data, at, Encode(labels), [0] + rest);
    Cut(data, at + |Encode(labels)|, [0], rest);
  }

  lemma ReadBody(data: bytes, body: nat, kind: nat, meta: bytes, rdata: bytes, rest: bytes)
    requires kind < 65536 && |meta| == 6 && |rdata| < 65536 && body <= |data|
    requires data[body..] == Body(kind, meta, rdata, rest)
    ensures body + 10 + |rdata| <= |data| && Be16(data, body) == kind && Be16(data, body + 8) == |rdata|
    ensures data[body + 10..body + 10 + |rdata|] == rdata && data[body + 10..] == rdata + rest
    ensures data[body + 10 + |rdata|..] == rest
  {
    hide U16, Be16;
    Cut(data, body, U16(kind), meta + (U16(|rdata|) + (rdata + rest)));
    ReadU16(data, body, kind);
    Cut(data, body + 2, meta, U16(|rdata|) + (rdata + rest));
    Cut(data, body + 8, U16(|rdata|), rdata + rest);
    ReadU16(data, body + 8, |rdata|);
    Cut(data, body + 10, rdata, rest);
  }

  lemma ReadRecord(data: bytes, at: nat, rr: Rr, rest: bytes)
    requires rr.Valid() && at <= |data| && data[at..] == Wire(rr, rest)
    ensures Labels(data, at, MAX_JUMPS) == Some(rr.owner)
    ensures var body := EndOf(data, at);
      && body + 10 + |rr.Data()| <= |data| && Be16(data, body) == rr.Type() && Be16(data, body + 8) == |rr.Data()|
      && data[body + 10..body + 10 + |rr.Data()|] == rr.Data() && data[body + 10..] == rr.Data() + rest
      && data[body + 10 + |rr.Data()|..] == rest
  {
    hide Labels, EndOf, Encode, Be16, Body;
    ReadName(data, at, rr.owner, Body(rr.Type(), rr.meta, rr.Data(), rest));
    ReadBody(data, EndOf(data, at), rr.Type(), rr.meta, rr.Data(), rest);
  }

  /** The parser reports of a record what it says. */
  lemma ReportsWhatItSays(data: bytes, at: nat, rr: Rr, rest: bytes, hostOf: bytes -> bytes, serviceOf: bytes -> bytes)
    requires rr.Valid() && at + |rr.Data()| <= |data|
    requires data[at..at + |rr.Data()|] == rr.Data() && data[at..] == rr.Data() + rest
    ensures Report(data, Answer(Join(rr.owner, DOT), rr.Type(), at, |rr.Data()|), hostOf, serviceOf) ==
            Says(rr, hostOf, serviceOf)
  {
    hide Labels, EndOf, Encode, Join, Walk;
    if rr.PtrRecord? {
      assert (Encode(rr.target) + [0]) + rest == Encode(rr.target) + ([0] + rest);
      ReadName(data, at, rr.target, rest);
      ParseResolvesNames(data, at);
    }
  }

  lemma AnswersStep(data: bytes, at: nat, n: nat, owner: seq<bytes>, kind: nat, size: nat)
    requires Labels(data, at, MAX_JUMPS) == Some(owner) && EndOf(data, at) + 10 + size <= |data|
    requires Be16(data, EndOf(data, at)) == kind && Be16(data, EndOf(data, at) + 8) == size
    requires AnswersAt(data, EndOf(data, at) + 10 + size, n).Some?
    ensures AnswersAt(data, at, n + 1) ==
            Some([Answer(Join(owner, DOT), kind, EndOf(data, at) + 10, size)] +
                 AnswersAt(data, EndOf(data, at) + 10 + size, n).value)
  {
    hide Labels, EndOf, Be16, Join;
  }

  lemma ReportsStep(data: bytes, first: Answer, others: seq<Answer>, hostOf: bytes -> bytes, serviceOf: bytes -> bytes)
    requires first.at + first.size <= |data|
    requires forall i :: 0 <= i < |others| ==> others[i].at + others[i].size <= |data|
    ensures Reports(data, [first] + others, hostOf, serviceOf) ==
            Report(data, first, hostOf, serviceOf) + Reports(data, others, hostOf, serviceOf)
  {
    hide Report;
    assert ([first] + others)[1..] == others;
  }

  /** The `n` records from an offset on are well formed and are reported as `found`. */
  ghost predicate ReportsAt(data: bytes, at: nat, n: nat, found: seq<Found>,
                            hostOf: bytes -> bytes, serviceOf: bytes -> bytes)
  {
    var answers := AnswersAt(data, at, n);
    answers.Some? && Reports(data, answers.value, hostOf, serviceOf) == found
  }

  /** A first record contributes what it says; the others follow behind it. */
  lemma FirstSays(data: bytes, at: nat, rr: Rr, rest: bytes, n: nat, found: seq<Found>,
                  hostOf: bytes -> bytes, serviceOf: bytes -> bytes) returns (next: nat)
    requires rr.Valid() && at <= |data| && data[at..] == Wire(rr, rest)
    ensures next <= |data| && data[next..] == rest
    ensures ReportsAt(data, next, n, found, hostOf, serviceOf) ==>
            ReportsAt(data, at, n + 1, Says(rr, hostOf, serviceOf) + found, hostOf, serviceOf)
  {
    hide Labels, EndOf, Be16, Report, Says, Wire, AnswersAt, Reports, Join;
    ReadRecord(data, at, rr, rest);
    var body, size := EndOf(data, at), |rr.Data()|;
    next := body + 10 + size;
    ReportsWhatItSays(data, body + 10, rr, rest, hostOf, serviceOf);
    var others := AnswersAt(data, next, n);
    if others.Some? {
      AnswersStep(data, at, n, rr.owner, rr.Type(), size);
      ReportsStep(data, Answer(Join(rr.owner, DOT), rr.Type(), body + 10, size), others.value, hostOf, serviceOf);
    }
  }

  lemma NoneReported(data: bytes, at: nat, hostOf: bytes -> bytes, serviceOf: bytes -> bytes)
    ensures ReportsAt(data, at, 0, [], hostOf, serviceOf)
  {
    NoAnswers(data, at, hostOf, serviceOf);
  }

  lemma {:induction false} RecordsRead(data: bytes, at: nat, rrs: seq<Rr>, rest: bytes,
                                       hostOf: bytes -> bytes, serviceOf: bytes -> bytes)
    requires (forall i :: 0 <= i < |rrs| ==> rrs[i].Valid()) && at <= |data| && data[at..] == RecordBytes(rrs, rest)
    ensures ReportsAt(data, at, |rrs|, AllSay(rrs, hostOf, serviceOf), hostOf, serviceOf)
    decreases |rrs|
  {
    hide ReportsAt, Says, Wire, Name;
    if rrs == [] {
      NoneReported(data, at, hostOf, serviceOf);
    } else {
      var more, found := RecordBytes(rrs[1..], rest), AllSay(rrs[1..], hostOf, serviceOf);
      var next := FirstSays(data, at, rrs[0], more, |rrs| - 1, found, hostOf, serviceOf);
      RecordsRead(data, next, rrs[1..], rest, hostOf, serviceOf);
    }
  }

  lemma QuestionsStep(data: bytes, at: nat, n: nat)
    requires Labels(data, at, MAX_JUMPS).Some?
    ensures QuestionsEnd(data, at, n + 1) == QuestionsEnd(data, EndOf(data, at) + 4, n)
  {
    hide Labels, EndOf;
  }

  lemma {:induction false} QuestionsRead(data: bytes, at: nat, qs: seq<Question>, rest: bytes)
    requires (forall i :: 0 <= i < |qs| ==> qs[i].Valid()) && at <= |data| && data[at..] == QuestionBytes(qs, rest)
    ensures var end := QuestionsEnd(data, at, |qs|);
      end.Some? && end.value <= |data| && data[end.value..] == rest
    decreases |qs|
  {
    if qs != [] {
      hide Labels, EndOf, Encode, QuestionsEnd;
      var q, more := qs[0], QuestionBytes(qs[1..], rest);
      ReadName(data, at, q.name, q.meta + more);
      Cut(data, EndOf(data, at), q.meta, more);
      QuestionsRead(data, EndOf(data, at) + 4, qs[1..], rest);
      QuestionsStep(data, at, |qs| - 1);
    }
  }

  lemma MessageRead(data: bytes, qs: seq<Question>, rrs: seq<Rr>, rest: bytes,
                    hostOf: bytes -> bytes, serviceOf: bytes -> bytes)
    requires (forall i :: 0 <= i < |qs| ==> qs[i].Valid()) && (forall i :: 0 <= i < |rrs| ==> rrs[i].Valid())
    requires |data| >= 12 && Be16(data, 4) == |qs| && Be16(data, 6) == |rrs|
    requires data[12..] == QuestionBytes(qs, RecordBytes(rrs, rest))
    ensures Message(data).Some?
    ensures Reports(data, Message(data).value, hostOf, serviceOf) == AllSay(rrs, hostOf, serviceOf)
  {
    hide Be16, QuestionsEnd, AnswersAt, Reports, QuestionBytes, RecordBytes, AllSay, Encode, Name;
    QuestionsRead(data, 12, qs, RecordBytes(rrs, rest));
    RecordsRead(data, QuestionsEnd(data, 12, |qs|).value, rrs, rest, hostOf, serviceOf);
  }

  /** Parsing an encoded response reports exactly what its answers say, in order, whatever its questions are and
      whatever follows the answers. */
  lemma MessageSaysItsRecords(header: bytes, qs: seq<Question>, rrs: seq<Rr>, rest: bytes,
                              hostOf: bytes -> bytes, serviceOf: bytes -> bytes)
    requires (forall i :: 0 <= i < |qs| ==> qs[i].Valid()) && (forall i :: 0 <= i < |rrs| ==> rrs[i].Valid())
    requires |header| == 12 && |qs| < 65536 && |rrs| < 65536
    requires header[4..6] == U16(|qs|) && header[6..8] == U16(|rrs|)
    ensures var data := header + QuestionBytes(qs, RecordBytes(rrs, rest));
      Message(data).Some? && Reports(data, Message(data).value, hostOf, serviceOf) == AllSay(rrs, hostOf, serviceOf)
  {
    hide U16, Be16, Message, Reports, QuestionBytes, RecordBytes, AllSay, Name;
    var body := QuestionBytes(qs, RecordBytes(rrs, rest));
    var data := header + body;
    assert data[4..6] == header[4..6] && data[6..8] == header[6..8] && data[12..] == body;
    ReadU16(data, 4, |qs|);
    ReadU16(data, 6, |rrs|);
    MessageRead(data, qs, rrs, rest, hostOf, serviceOf);
  }
}
