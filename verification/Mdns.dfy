/** mDNS messages (internal/discovery/mdns.go): the name decoder with compression
    pointers (section 4.1.4 of RFC 1035), the query builder and the response parser. */
module Mdns {
  import opened Bytes
  import opened Text

  const DOT: byte := 46
  const MAX_JUMPS := 5

  function Be16(data: bytes, i: nat): (v: nat)
    requires i + 2 <= |data|
    ensures v < 65536
  {
    (data[i] as int) * 256 + data[i + 1]
  }

  /** The 14-bit target of a compression pointer. */
  function Pointer(data: bytes, i: nat): (p: nat)
    requires i + 2 <= |data|
  {
    Be16(data, i) % 0x4000
  }

  function AddLabel(name: bytes, piece: bytes): bytes {
    if name == [] then piece else name + [DOT] + piece
  }

  // ----- the decoder, as it runs -----

  /** The rest of the decoding loop from a given position. */
  function Walk(data: bytes, cur: nat, jumps: nat, name: bytes, resume: Option<nat>): (r: (bytes, nat))
    decreases MAX_JUMPS + 1 - jumps, |data| - cur
  {
    var stop := (name, if resume.Some? then resume.value else cur);
    if jumps > MAX_JUMPS || cur >= |data| then stop
    else if data[cur] == 0 then (name, if resume.Some? then resume.value else cur + 1)
    else if data[cur] >= 0xC0 then
      if cur + 1 >= |data| then stop
      else Walk(data, Pointer(data, cur), jumps + 1, name, if resume.Some? then resume else Some(cur + 2))
    else if cur + 1 + data[cur] > |data| then (name, if resume.Some? then resume.value else cur + 1)
    else Walk(data, cur + 1 + data[cur], jumps, AddLabel(name, data[cur + 1..cur + 1 + data[cur]]), resume)
  }

  function Parse(data: bytes, offset: nat): (r: (bytes, nat)) {
    Walk(data, offset, 0, [], None)
  }

  method ParseName(data: bytes, offset: nat) returns (name: bytes, next: nat)
    ensures (name, next) == Parse(data, offset)
    ensures offset < |data| ==> offset <= next <= |data|
    ensures offset >= |data| ==> name == [] && next == offset
  {
    hide AddLabel, Be16, Pointer;
    WalkStaysInside(data, offset, 0, [], None);
    if offset >= |data| {
      return [], offset;
    }
    name := [];
    var finalOffset, current, jumps := -1, offset, 0;
    while true
      invariant 0 <= current && 0 <= jumps <= MAX_JUMPS + 1 && -1 <= finalOffset
      invariant Parse(data, offset) ==
        Walk(data, current, jumps, name, if finalOffset < 0 then None else Some(finalOffset))
      decreases MAX_JUMPS + 1 - jumps, |data| - current
    {
      if jumps > MAX_JUMPS { break; }
      if current >= |data| { break; }
      var labelLen := data[current];
      if labelLen == 0 {
        current := current + 1;
        break;
      }
      if labelLen >= 0xC0 {
        if current + 1 >= |data| { break; }
        if finalOffset < 0 { finalOffset := current + 2; }
        jumps, current := jumps + 1, Pointer(data, current);
        continue;
      }
      current := current + 1;
      if current + labelLen > |data| { break; }
      name := AddLabel(name, data[current..current + labelLen]);
      current := current + labelLen;
    }
    next := if finalOffset >= 0 then finalOffset else current;
  }

  /** A caller that starts inside the data resumes inside the data, never before its start. */
  lemma {:induction false} WalkStaysInside(data: bytes, cur: nat, jumps: nat, name: bytes, resume: Option<nat>)
    ensures resume.Some? ==> Walk(data, cur, jumps, name, resume).1 == resume.value
    ensures resume.None? && cur <= |data| ==> cur <= Walk(data, cur, jumps, name, resume).1 <= |data|
    decreases MAX_JUMPS + 1 - jumps, |data| - cur
  {
    if jumps <= MAX_JUMPS && cur < |data| && data[cur] != 0 {
      if data[cur] >= 0xC0 {
        if cur + 1 < |data| {
          WalkStaysInside(data, Pointer(data, cur), jumps + 1, name, if resume.Some? then resume else Some(cur + 2));
        }
      } else if cur + 1 + data[cur] <= |data| {
        WalkStaysInside(data, cur + 1 + data[cur], jumps, AddLabel(name, data[cur + 1..cur + 1 + data[cur]]), resume);
      }
    }
  }

  // ----- what a name means -----

  /** The labels of the name at `cur`, following at most `budget` pointers; None if malformed. */
  function Labels(data: bytes, cur: nat, budget: nat): (ls: Option<seq<bytes>>)
    ensures ls.Some? ==> cur < |data| && forall i :: 0 <= i < |ls.value| ==> ls.value[i] != []
    decreases budget, |data| - cur
  {
    if cur >= |data| then None
    else if data[cur] == 0 then Some([])
    else if data[cur] >= 0xC0 then
      if cur + 1 >= |data| || budget == 0 then None else Labels(data, Pointer(data, cur), budget - 1)
    else if cur + 1 + data[cur] > |data| then None
    else
      var rest := Labels(data, cur + 1 + data[cur], budget);
      if rest.None? then None else Some([data[cur + 1..cur + 1 + data[cur]]] + rest.value)
  }

  /** Where the encoding of the name at `cur` ends: past its first pointer or its terminator. */
  function EndOf(data: bytes, cur: nat): nat
    decreases |data| - cur
  {
    if cur >= |data| then cur
    else if data[cur] == 0 then cur + 1
    else if data[cur] >= 0xC0 then cur + 2
    else EndOf(data, cur + 1 + data[cur])
  }

  function AddLabels(name: bytes, labels: seq<bytes>): bytes
    decreases |labels|
  {
    if labels == [] then name else AddLabels(AddLabel(name, labels[0]), labels[1..])
  }

  lemma {:induction false} AddLabelsJoins(name: bytes, labels: seq<bytes>)
    requires forall i :: 0 <= i < |labels| ==> labels[i] != []
    ensures AddLabels(name, labels) ==
      if labels == [] then name else if name == [] then Join(labels, DOT) else name + [DOT] + Join(labels, DOT)
    decreases |labels|
  {
    if labels != [] {
      AddLabelsJoins(AddLabel(name, labels[0]), labels[1..]);
      if |labels| > 1 && name != [] {
        assert name + [DOT] + Join(labels, DOT) == name + [DOT] + labels[0] + [DOT] + Join(labels[1..], DOT);
      }
    }
  }

  lemma {:induction false} WalkFollows(data: bytes, cur: nat, jumps: nat, name: bytes, resume: Option<nat>)
    requires jumps <= MAX_JUMPS && Labels(data, cur, MAX_JUMPS - jumps).Some?
    ensures Walk(data, cur, jumps, name, resume) ==
      (AddLabels(name, Labels(data, cur, MAX_JUMPS - jumps).value),
       if resume.Some? then resume.value else EndOf(data, cur))
    decreases MAX_JUMPS + 1 - jumps, |data| - cur
  {
    hide AddLabel, Be16, Pointer;
    if data[cur] >= 0xC0 {
      var resume' := if resume.Some? then resume else Some(cur + 2);
      WalkFollows(data, Pointer(data, cur), jumps + 1, name, resume');
    } else if data[cur] != 0 {
      var next := cur + 1 + data[cur];
      var piece := data[cur + 1..next];
      WalkFollows(data, next, jumps, AddLabel(name, piece), resume);
      var rest := Labels(data, next, MAX_JUMPS - jumps).value;
      assert ([piece] + rest)[1..] == rest;
    }
  }

  /** A well-formed name of at most five jumps decodes to its dotted labels, and the
      caller resumes just past the first pointer or the terminator. */
  lemma ParseResolvesNames(data: bytes, offset: nat)
    requires Labels(data, offset, MAX_JUMPS).Some?
    ensures Parse(data, offset) == (Join(Labels(data, offset, MAX_JUMPS).value, DOT), EndOf(data, offset))
  {
    WalkFollows(data, offset, 0, [], None);
    AddLabelsJoins([], Labels(data, offset, MAX_JUMPS).value);
  }

  // ----- names with more than five jumps -----

  /** The labels met at `cur` before more than `budget` pointers would have to be followed, whatever the bytes. */
  function Met(data: bytes, cur: nat, budget: nat): (labels: seq<bytes>)
    ensures forall i :: 0 <= i < |labels| ==> labels[i] != []
    decreases budget, |data| - cur
  {
    if cur >= |data| || data[cur] == 0 then []
    else if data[cur] >= 0xC0 then
      if cur + 1 >= |data| || budget == 0 then [] else Met(data, Pointer(data, cur), budget - 1)
    else if cur + 1 + data[cur] > |data| then []
    else [data[cur + 1..cur + 1 + data[cur]]] + Met(data, cur + 1 + data[cur], budget)
  }

  lemma {:induction false} WalkMeets(data: bytes, cur: nat, jumps: nat, name: bytes, resume: Option<nat>)
    requires jumps <= MAX_JUMPS
    ensures Walk(data, cur, jumps, name, resume).0 == AddLabels(name, Met(data, cur, MAX_JUMPS - jumps))
    decreases MAX_JUMPS + 1 - jumps, |data| - cur
  {
    hide AddLabel, Be16, Pointer;
    if cur < |data| && data[cur] != 0 {
      if data[cur] >= 0xC0 {
        if cur + 1 < |data| && jumps < MAX_JUMPS {
          var resume' := if resume.Some? then resume else Some(cur + 2);
          WalkMeets(data, Pointer(data, cur), jumps + 1, name, resume');
        }
      } else if cur + 1 + data[cur] <= |data| {
        var next := cur + 1 + data[cur];
        var piece := data[cur + 1..next];
        WalkMeets(data, next, jumps, AddLabel(name, piece), resume);
        var rest := Met(data, next, MAX_JUMPS - jumps);
        assert ([piece] + rest)[1..] == rest;
      }
    }
  }

  /** On every input the decoded name is made of exactly the labels met within five jumps. */
  lemma ParseMeets(data: bytes, offset: nat)
    ensures Parse(data, offset).0 == Join(Met(data, offset, MAX_JUMPS), DOT)
  {
    WalkMeets(data, offset, 0, [], None);
    AddLabelsJoins([], Met(data, offset, MAX_JUMPS));
  }

  /** What is met within fewer jumps is the front of the name. */
  lemma {:induction false} MetIsFront(data: bytes, cur: nat, budget: nat, more: nat)
    requires budget <= more && Labels(data, cur, more).Some?
    ensures Met(data, cur, budget) <= Labels(data, cur, more).value
    decreases more, |data| - cur
  {
    hide Be16, Pointer;
    if data[cur] >= 0xC0 {
      if budget > 0 {
        MetIsFront(data, Pointer(data, cur), budget - 1, more - 1);
      }
    } else if data[cur] != 0 {
      MetIsFront(data, cur + 1 + data[cur], budget, more);
    }
  }

  lemma {:induction false} JoinGrows(front: seq<bytes>, labels: seq<bytes>)
    requires front <= labels && front != labels
    requires forall i :: 0 <= i < |labels| ==> labels[i] != []
    ensures |Join(front, DOT)| < |Join(labels, DOT)|
    decreases |labels|
  {
    if front == [] {
      assert labels[0] != [];
    } else {
      assert labels[0] == front[0];
      JoinGrows(front[1..], labels[1..]);
    }
  }

  /** How many pointers lie in front of the last label of a well-formed name. */
  function JumpsToLast(data: bytes, cur: nat, budget: nat): nat
    requires Labels(data, cur, budget).Some?
    decreases budget, |data| - cur
  {
    if data[cur] == 0 then 0
    else if data[cur] >= 0xC0 then
      if Labels(data, Pointer(data, cur), budget - 1) == Some([]) then 0
      else 1 + JumpsToLast(data, Pointer(data, cur), budget - 1)
    else JumpsToLast(data, cur + 1 + data[cur], budget)
  }

  /** All labels are met within `b` jumps exactly when no more pointers lie in front of the last one. */
  lemma {:induction false} MetIsAll(data: bytes, cur: nat, b: nat, budget: nat)
    requires b <= budget && Labels(data, cur, budget).Some?
    ensures Met(data, cur, b) == Labels(data, cur, budget).value <==> JumpsToLast(data, cur, budget) <= b
    decreases budget, |data| - cur
  {
    hide Be16, Pointer;
    if data[cur] >= 0xC0 {
      var target := Pointer(data, cur);
      if b > 0 {
        MetIsAll(data, target, b - 1, budget - 1);
        MetIsFront(data, target, b - 1, budget - 1);
      }
    } else if data[cur] != 0 {
      var next := cur + 1 + data[cur];
      MetIsAll(data, next, b, budget);
      var piece, met, rest := data[cur + 1..next], Met(data, next, b), Labels(data, next, budget).value;
      assert ([piece] + met)[1..] == met && ([piece] + rest)[1..] == rest;
    }
  }

  /** A well-formed name with any number of jumps decodes to a front of its labels, and to the whole name exactly
      when at most five pointers lie in front of its last label; labels behind a sixth one are lost. */
  lemma LongChainsAreCut(data: bytes, offset: nat, budget: nat)
    requires budget >= MAX_JUMPS && Labels(data, offset, budget).Some?
    ensures var all, met := Labels(data, offset, budget).value, Met(data, offset, MAX_JUMPS);
      && met <= all && Parse(data, offset).0 == Join(met, DOT)
      && (Parse(data, offset).0 == Join(all, DOT) <==> JumpsToLast(data, offset, budget) <= MAX_JUMPS)
  {
    hide Walk, Labels, Met, Join, JumpsToLast;
    ParseMeets(data, offset);
    MetIsFront(data, offset, MAX_JUMPS, budget);
    MetIsAll(data, offset, MAX_JUMPS, budget);
    var all, met := Labels(data, offset, budget).value, Met(data, offset, MAX_JUMPS);
    if met != all {
      JoinGrows(met, all);
    }
  }

  lemma OneJump(data: bytes, cur: nat, target: byte, budget: nat)
    requires cur + 1 < |data| && data[cur] == 0xC0 && data[cur + 1] == target
    ensures Labels(data, cur, budget + 1) == Labels(data, target, budget)
    ensures Met(data, cur, budget + 1) == Met(data, target, budget) && Met(data, cur, 0) == []
  {
  }

  lemma OneLabel(data: bytes, cur: nat, budget: nat)
    requires cur + 2 < |data| && data[cur] == 1 && data[cur + 2] == 0
    ensures Labels(data, cur, budget) == Some([[data[cur + 1]]])
  {
    assert Labels(data, cur + 2, budget) == Some([]);
    var piece := data[cur + 1..cur + 1 + data[cur]];
    assert piece == [data[cur + 1]];
    assert [piece] + [] == [piece];
  }

  /** Six pointers in front of the label "a": nothing of the name is left. */
  lemma SixJumpsLoseTheName(data: bytes)
    requires data == [0xC0, 2, 0xC0, 4, 0xC0, 6, 0xC0, 8, 0xC0, 10, 0xC0, 12, 1, 97, 0]
    ensures Labels(data, 0, 6) == Some([[97]]) && Parse(data, 0).0 == []
  {
    hide Labels, Met, Walk;
    OneLabel(data, 12, 0);
    OneJump(data, 10, 12, 0);
    OneJump(data, 8, 10, 1);
    OneJump(data, 6, 8, 2);
    OneJump(data, 4, 6, 3);
    OneJump(data, 2, 4, 4);
    OneJump(data, 0, 2, 5);
    OneJump(data, 8, 10, 0);
    OneJump(data, 6, 8, 1);
    OneJump(data, 4, 6, 2);
    OneJump(data, 2, 4, 3);
    OneJump(data, 0, 2, 4);
    ParseMeets(data, 0);
  }

  // ----- queries -----

  /** Twelve header bytes that announce one question. */
  const QUERY_HEADER: bytes := [0, 0, 0, 0, 0, 1, 0, 0, 0, 0, 0, 0]

  /** Question type PTR, class IN. */
  const QUESTION_TAIL: bytes := [0, 12, 0, 1]

  /** Each label behind its length, truncated to a byte as the source's conversion does. */
  function Encode(labels: seq<bytes>): bytes {
    if labels == [] then [] else [|labels[0]| % 256] + labels[0] + Encode(labels[1..])
  }

  lemma {:induction false} EncodeAppend(labels: seq<bytes>, piece: bytes)
    ensures Encode(labels + [piece]) == Encode(labels) + [|piece| % 256] + piece
    decreases |labels|
  {
    if labels == [] {
      assert Encode([piece]) == [|piece| % 256] + piece + Encode([]);
    } else {
      EncodeAppend(labels[1..], piece);
      assert (labels + [piece])[1..] == labels[1..] + [piece];
    }
  }

  function Query(name: bytes): bytes {
    QUERY_HEADER + Encode(Split(name, DOT)) + [0] + QUESTION_TAIL
  }

  method BuildQuery(name: bytes) returns (buf: bytes)
    ensures buf == Query(name)
  {
    buf := QUERY_HEADER;
    var labels := Split(name, DOT);
    for i := 0 to |labels|
      invariant buf == QUERY_HEADER + Encode(labels[..i])
    {
      EncodeAppend(labels[..i], labels[i]);
      assert labels[..i + 1] == labels[..i] + [labels[i]];
      buf := buf + [|labels[i]| % 256];
      buf := buf + labels[i];
    }
    assert labels[..|labels|] == labels;
    buf := buf + [0];
    buf := buf + QUESTION_TAIL;
  }

  /** Labels the decoder reads back: nonempty, and too short for their length byte to
      look like a pointer. (RFC 1035 allows 63; the code accepts up to 191.) */
  ghost predicate Readable(piece: bytes) { 1 <= |piece| < 0xC0 }

  ghost predicate RoundTrips(name: bytes) {
    Parse(Query(name), |QUERY_HEADER|) == (name, |Query(name)| - |QUESTION_TAIL|)
  }

  /** The number of bytes the labels take, without the terminator. */
  function Size(labels: seq<bytes>): nat {
    if labels == [] then 0 else 1 + |labels[0]| + Size(labels[1..])
  }

  /** The encoding of `labels` and a terminator are stored from `start` on. */
  ghost predicate Stored(data: bytes, start: nat, labels: seq<bytes>)
    decreases |labels|
  {
    if labels == [] then start < |data| && data[start] == 0
    else
      var next := start + 1 + |labels[0]|;
      next < |data| && data[start] == |labels[0]| % 256 && data[start + 1..next] == labels[0] &&
      Stored(data, next, labels[1..])
  }

  lemma HeadStored(data: bytes, start: nat, n: byte, piece: bytes, rest: bytes)
    requires start <= |data| && data[start..] == [n] + piece + rest && rest != []
    ensures var next := start + 1 + |piece|;
      next < |data| && data[start] == n && data[start + 1..next] == piece && data[next..] == rest
  {
    var suffix := data[start..];
    assert suffix[0] == n && suffix[1..1 + |piece|] == piece && suffix[1 + |piece|..] == rest;
  }

  lemma {:induction false} EncodeStores(data: bytes, start: nat, labels: seq<bytes>, tail: bytes)
    requires start <= |data| && data[start..] == Encode(labels) + tail && tail != [] && tail[0] == 0
    ensures Stored(data, start, labels) && |Encode(labels)| == Size(labels)
    decreases |labels|
  {
    if labels == [] {
      assert data[start..][0] == 0;
    } else {
      var n, rest := |labels[0]| % 256, Encode(labels[1..]) + tail;
      assert data[start..] == [n] + labels[0] + rest;
      HeadStored(data, start, n, labels[0], rest);
      EncodeStores(data, start + 1 + |labels[0]|, labels[1..], tail);
    }
  }

  lemma {:induction false} StoredWithin(data: bytes, start: nat, labels: seq<bytes>, budget: nat)
    requires Stored(data, start, labels)
    requires forall i :: 0 <= i < |labels| ==> Readable(labels[i])
    ensures Labels(data, start, budget) == Some(labels)
    ensures EndOf(data, start) == start + Size(labels) + 1
    decreases |labels|
  {
    if labels != [] {
      StoredWithin(data, start + 1 + |labels[0]|, labels[1..], budget);
      assert [labels[0]] + labels[1..] == labels;
    }
  }

  /** The decoded name extends what was already read, and only at a dot. */
  lemma {:induction false} WalkExtends(data: bytes, cur: nat, jumps: nat, name: bytes, resume: Option<nat>)
    ensures name <= Walk(data, cur, jumps, name, resume).0
    ensures name != [] && |Walk(data, cur, jumps, name, resume).0| > |name| ==>
      Walk(data, cur, jumps, name, resume).0[|name|] == DOT
    decreases MAX_JUMPS + 1 - jumps, |data| - cur
  {
    hide Be16, Pointer;
    if jumps <= MAX_JUMPS && cur < |data| && data[cur] != 0 {
      if data[cur] >= 0xC0 {
        if cur + 1 < |data| {
          WalkExtends(data, Pointer(data, cur), jumps + 1, name, if resume.Some? then resume else Some(cur + 2));
        }
      } else if cur + 1 + data[cur] <= |data| {
        WalkExtends(data, cur + 1 + data[cur], jumps, AddLabel(name, data[cur + 1..cur + 1 + data[cur]]), resume);
      }
    }
  }

  /** The dotted form of labels that follow an already decoded name. */
  function Dotted(name: bytes, labels: seq<bytes>): bytes
    requires labels != []
  {
    if name == [] then Join(labels, DOT) else name + [DOT] + Join(labels, DOT)
  }

  /** A stored name that decodes to itself and to its own end has only readable labels:
      an empty, pointer-like or truncated length spoils the name or the resume offset. */
  lemma {:induction false} DecodedLabelsAreReadable(
    data: bytes, start: nat, labels: seq<bytes>, name: bytes, full: bytes, end: nat)
    requires Stored(data, start, labels) && labels != []
    requires forall i :: 0 <= i < |labels| ==> DOT !in labels[i]
    requires full == Dotted(name, labels) && end == start + Size(labels) + 1
    requires Walk(data, start, 0, name, None) == (full, end)
    ensures forall i :: 0 <= i < |labels| ==> Readable(labels[i])
    decreases |labels|
  {
    hide Walk, Dotted, AddLabel;
    DecodedFirstLabelIsReadable(data, start, labels, name, full, end);
    if |labels| > 1 {
      var next, rest, name' := start + 1 + |labels[0]|, labels[1..], AddLabel(name, labels[0]);
      DottedStep(name, labels);
      WalkReadsLabel(data, start, labels, name);
      DecodedLabelsAreReadable(data, next, rest, name', full, end);
      assert forall i :: 0 < i < |labels| ==> labels[i] == rest[i - 1];
    }
  }

  lemma WalkReadsLabel(data: bytes, start: nat, labels: seq<bytes>, name: bytes)
    requires Stored(data, start, labels) && labels != [] && Readable(labels[0])
    ensures Walk(data, start, 0, name, None) == Walk(data, start + 1 + |labels[0]|, 0, AddLabel(name, labels[0]), None)
  {
  }

  lemma DecodedFirstLabelIsReadable(
    data: bytes, start: nat, labels: seq<bytes>, name: bytes, full: bytes, end: nat)
    requires labels != [] && DOT !in labels[0] && full == Dotted(name, labels)
    requires start + 1 + |labels[0]| < |data| && start + 1 + |labels[0]| < end
    requires data[start] == |labels[0]| % 256 && data[start + 1..start + 1 + |labels[0]|] == labels[0]
    requires Walk(data, start, 0, name, None) == (full, end)
    ensures Readable(labels[0])
  {
    hide Dotted, AddLabel, Be16, Pointer;
    var n := |labels[0]| % 256;
    assert data[start + 1..start + 1 + n] == labels[0][..n];
    if n >= 0xC0 {
      WalkResumesPastPointer(data, start, name);
    } else if 0 < n < |labels[0]| {
      TruncatedLabelDiffers(data, start + 1 + n, name, labels, n, full);
    }
  }

  lemma WalkResumesPastPointer(data: bytes, cur: nat, name: bytes)
    requires cur + 1 < |data| && data[cur] >= 0xC0
    ensures Walk(data, cur, 0, name, None).1 == cur + 2
  {
    WalkStaysInside(data, Pointer(data, cur), 1, name, Some(cur + 2));
  }

  lemma DottedStep(name: bytes, labels: seq<bytes>)
    requires |labels| > 1 && labels[0] != []
    ensures Dotted(name, labels) == Dotted(AddLabel(name, labels[0]), labels[1..])
  {
  }

  lemma TruncatedLabelDiffers(data: bytes, cur: nat, name: bytes, labels: seq<bytes>, n: nat, full: bytes)
    requires labels != [] && 0 < n < |labels[0]| && DOT !in labels[0] && full == Dotted(name, labels)
    ensures Walk(data, cur, 0, AddLabel(name, labels[0][..n]), None).0 != full
  {
    var name' := AddLabel(name, labels[0][..n]);
    WalkExtends(data, cur, 0, name', None);
    assert labels[0] <= Join(labels, DOT);
    assert |name'| < |full|;
    assert full[|name'|] == labels[0][n];
  }

  /** The decoder undoes the builder exactly on names whose labels are all readable. */
  lemma QueryRoundTrip(name: bytes)
    ensures RoundTrips(name) <==> forall i :: 0 <= i < |Split(name, DOT)| ==> Readable(Split(name, DOT)[i])
  {
    var labels, data := Split(name, DOT), Query(name);
    assert data[|QUERY_HEADER|..] == Encode(labels) + ([0] + QUESTION_TAIL);
    EncodeStores(data, |QUERY_HEADER|, labels, [0] + QUESTION_TAIL);
    hide Encode, Stored, Split, Walk;
    assert data == QUERY_HEADER + Encode(labels) + ([0] + QUESTION_TAIL);
    StoredNameRoundTrip(data, |QUERY_HEADER|, name);
  }

  /** A single label of 192 bytes: its length byte is taken for a pointer. */
  lemma LongLabelDoesNotRoundTrip()
    ensures !RoundTrips(seq(192, _ => 97))
  {
    var name: bytes := seq(192, _ => 97);
    SplitPiece(name, DOT);
    QueryRoundTrip(name);
    assert !Readable(Split(name, DOT)[0]);
  }

  lemma StoredNameRoundTrip(data: bytes, start: nat, name: bytes)
    requires Stored(data, start, Split(name, DOT))
    ensures Parse(data, start) == (name, start + Size(Split(name, DOT)) + 1)
      <==> forall i :: 0 <= i < |Split(name, DOT)| ==> Readable(Split(name, DOT)[i])
  {
    hide Labels, Walk, Stored, Size, EndOf, Join, Split, Readable;
    var labels := Split(name, DOT);
    if forall i :: 0 <= i < |labels| ==> Readable(labels[i]) {
      StoredWithin(data, start, labels, MAX_JUMPS);
      ParseResolvesNames(data, start);
    }
    if Parse(data, start) == (name, start + Size(labels) + 1) {
      DecodedLabelsAreReadable(data, start, labels, [], name, start + Size(labels) + 1);
    }
  }

  // ----- responses -----

  /** A resource record as the parser sees it: owner name, type, and where its data lies. */
  datatype Answer = Answer(name: bytes, rrType: nat, at: nat, size: nat)

  datatype Address = Recorded(ip: bytes) | Sender

  datatype Found = Found(hostname: bytes, service: bytes, address: Address)

  const TYPE_A := 0x0001
  const TYPE_PTR := 0x000C

  /** The offset past `n` well-formed questions. */
  function QuestionsEnd(data: bytes, offset: nat, n: nat): (end: Option<nat>)
    decreases n
  {
    if n == 0 then Some(offset)
    else if Labels(data, offset, MAX_JUMPS).None? then None
    else QuestionsEnd(data, EndOf(data, offset) + 4, n - 1)
  }

  /** The `n` resource records that follow, if all are well formed and lie within the data. */
  function AnswersAt(data: bytes, offset: nat, n: nat): (rrs: Option<seq<Answer>>)
    ensures rrs.Some? ==>
      |rrs.value| == n && forall i :: 0 <= i < n ==> rrs.value[i].at + rrs.value[i].size <= |data|
    decreases n
  {
    if n == 0 then Some([])
    else if Labels(data, offset, MAX_JUMPS).None? then None
    else
      var body := EndOf(data, offset);
      if body + 10 > |data| then None
      else
        var size := Be16(data, body + 8);
        if body + 10 + size > |data| then None
        else
          var rest := AnswersAt(data, body + 10 + size, n - 1);
          var name := Join(Labels(data, offset, MAX_JUMPS).value, DOT);
          if rest.None? then None
          else Some([Answer(name, Be16(data, body), body + 10, size)] + rest.value)
  }

  /** What one record contributes: an address record its four bytes, a pointer record its target. */
  function Report(data: bytes, rr: Answer, hostOf: bytes -> bytes, serviceOf: bytes -> bytes): (found: seq<Found>)
    requires rr.at + rr.size <= |data|
    ensures |found| <= 1
  {
    if rr.rrType == TYPE_A && rr.size == 4 && hostOf(rr.name) != [] then
      [Found(hostOf(rr.name), serviceOf(rr.name), Recorded(data[rr.at..rr.at + 4]))]
    else if rr.rrType == TYPE_PTR && hostOf(Parse(data, rr.at).0) != [] then
      [Found(hostOf(Parse(data, rr.at).0), serviceOf(rr.name), Sender)]
    else []
  }

  function Reports(data: bytes, rrs: seq<Answer>, hostOf: bytes -> bytes, serviceOf: bytes -> bytes): seq<Found>
    requires forall i :: 0 <= i < |rrs| ==> rrs[i].at + rrs[i].size <= |data|
  {
    if rrs == [] then []
    else Report(data, rrs[0], hostOf, serviceOf) + Reports(data, rrs[1..], hostOf, serviceOf)
  }

  /** The answers of a well-formed response message. */
  function Message(data: bytes): Option<seq<Answer>>
    requires |data| >= 12
  {
    var start := QuestionsEnd(data, 12, Be16(data, 4));
    if start.None? then None else AnswersAt(data, start.value, Be16(data, 6))
  }

  lemma {:induction false} EndOfAdvances(data: bytes, offset: nat)
    requires offset < |data|
    ensures EndOf(data, offset) > offset
    decreases |data| - offset
  {
    if 0 < data[offset] < 0xC0 && offset + 1 + data[offset] < |data| {
      EndOfAdvances(data, offset + 1 + data[offset]);
    }
  }

  method SkipQuestions(data: bytes) returns (offset: nat)
    requires |data| >= 12
    ensures QuestionsEnd(data, 12, Be16(data, 4)).Some? ==> QuestionsEnd(data, 12, Be16(data, 4)) == Some(offset)
  {
    hide Labels, EndOf, Walk, Be16;
    offset := 12;
    var questions: nat := Be16(data, 4);
    for i := 0 to questions
      invariant QuestionsEnd(data, 12, questions).Some? ==>
        QuestionsEnd(data, 12, questions) == QuestionsEnd(data, offset, questions - i)
    {
      if Labels(data, offset, MAX_JUMPS).Some? {
        ParseResolvesNames(data, offset);
        EndOfAdvances(data, offset);
      }
      var _, next := ParseName(data, offset);
      if next == offset { break; }
      offset := next + 4;
    }
  }

  /** One well-formed record: the decoder reads its name, it lies within the data, and
      the rest of the reports are those of the records behind it. */
  lemma FirstAnswer(data: bytes, offset: nat, n: nat, hostOf: bytes -> bytes, serviceOf: bytes -> bytes)
    requires n > 0 && AnswersAt(data, offset, n).Some?
    ensures offset < Parse(data, offset).1 <= |data| - 10
    ensures var (name, body) := Parse(data, offset);
      var rr := Answer(name, Be16(data, body), body + 10, Be16(data, body + 8));
      && rr.at + rr.size <= |data|
      && AnswersAt(data, rr.at + rr.size, n - 1).Some?
      && Reports(data, AnswersAt(data, offset, n).value, hostOf, serviceOf) ==
           Report(data, rr, hostOf, serviceOf) +
           Reports(data, AnswersAt(data, rr.at + rr.size, n - 1).value, hostOf, serviceOf)
  {
    hide Labels, EndOf, Walk, Be16, Join, Report;
    ParseResolvesNames(data, offset);
    EndOfAdvances(data, offset);
    var (name, body) := Parse(data, offset);
    var rr := Answer(name, Be16(data, body), body + 10, Be16(data, body + 8));
    var rest := AnswersAt(data, rr.at + rr.size, n - 1);
    assert AnswersAt(data, offset, n).value == [rr] + rest.value;
    assert ([rr] + rest.value)[1..] == rest.value;
  }

  lemma NoAnswers(data: bytes, offset: nat, hostOf: bytes -> bytes, serviceOf: bytes -> bytes)
    ensures AnswersAt(data, offset, 0) == Some([]) && Reports(data, [], hostOf, serviceOf) == []
  {
  }

  /** Total on every input; a well-formed response yields exactly the reports of its
      records, in order. */
  method ParseResponse(data: bytes, hostOf: bytes -> bytes, serviceOf: bytes -> bytes) returns (results: seq<Found>)
    ensures |data| < 12 || data[2] < 0x80 ==> results == []
    ensures |data| >= 12 ==> |results| <= Be16(data, 6)
    ensures |data| >= 12 && data[2] >= 0x80 && Message(data).Some? ==>
      results == Reports(data, Message(data).value, hostOf, serviceOf)
  {
    hide Walk, Be16, AnswersAt, Report, Reports, QuestionsEnd;
    results := [];
    if |data| < 12 || data[2] < 0x80 { return; }
    var offset: nat := SkipQuestions(data);
    var answers: nat := Be16(data, 6);
    ghost var all := Message(data);
    for i := 0 to answers
      invariant |results| <= i
      invariant all.Some? ==>
        AnswersAt(data, offset, answers - i).Some? &&
        results + Reports(data, AnswersAt(data, offset, answers - i).value, hostOf, serviceOf) ==
        Reports(data, all.value, hostOf, serviceOf)
    {
      if all.Some? {
        FirstAnswer(data, offset, answers - i, hostOf, serviceOf);
      }
      var name, next := ParseName(data, offset);
      if next == offset { break; }
      if next + 10 > |data| { break; }
      var rr := Answer(name, Be16(data, next), next + 10, Be16(data, next + 8));
      if rr.at + rr.size > |data| { break; }
      results := results + Report(data, rr, hostOf, serviceOf);
      offset := rr.at + rr.size;
    }
    NoAnswers(data, offset, hostOf, serviceOf);
  }
}
