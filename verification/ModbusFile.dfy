/**
 File record writes: the two passes of handle_write_file_record visit the same sub-requests, exactly those the request
 consists of (section 6.15 of MODBUS Application Protocol V1.1b3).
 */
module ModbusFile {
  import opened Base
  import opened ModbusWire
  import opened ModbusProtocol

  /** A sub-request of a file write with its register bytes. */
  datatype Written = Written(part: Part, data: Bytes)

  predicate Encodable(w: Written) { |w.data| == 2 * w.part.length }

  function Encoded(w: Written): Bytes {
    [w.part.kind] + BigEndian(w.part.file) + BigEndian(w.part.record) + BigEndian(w.part.length) + w.data
  }

  function Joined(ws: seq<Written>): Bytes {
    if ws == [] then [] else Encoded(ws[0]) + Joined(ws[1..])
  }

  /** The sub-requests met when walking through `b`. */
  function Visited(b: Bytes): (ws: seq<Written>)
    requires Walkable(b)
    ensures ws != [] && forall i :: 0 <= i < |ws| ==> Encodable(ws[i])
    decreases |b|
  {
    var p := PartAt(b, 0);
    var next := PART_HEADER + 2 * p.length;
    [Written(p, b[PART_HEADER..next])] + if |b| - next < PART_HEADER then [] else Visited(b[next..])
  }

  lemma EncodedFirst(b: Bytes)
    requires Walkable(b)
    ensures var next := PART_HEADER + 2 * PartAt(b, 0).length;
            Encoded(Written(PartAt(b, 0), b[PART_HEADER..next])) == b[..next]
  {
    var p := PartAt(b, 0);
    WordParts(b[1], b[2]);
    WordParts(b[3], b[4]);
    WordParts(b[5], b[6]);
    assert BigEndian(p.file) == [b[1], b[2]] && BigEndian(p.record) == [b[3], b[4]];
    assert BigEndian(p.length) == [b[5], b[6]];
    assert b[..PART_HEADER] == [b[0], b[1], b[2], b[3], b[4], b[5], b[6]];
  }

  /** The request is accepted exactly when it consists of valid sub-requests and nothing else. */
  lemma {:induction false} CheckedIff(b: Bytes)
    requires Walkable(b)
    ensures CheckParts(b) == 0 <==>
            b == Joined(Visited(b)) && forall i :: 0 <= i < |Visited(b)| ==> GoodPart(Visited(b)[i].part, 122)
    decreases |b|
  {
    hide Encoded, PartAt, GoodPart;
    var p := PartAt(b, 0);
    var next := PART_HEADER + 2 * p.length;
    var ws := Visited(b);
    EncodedFirst(b);
    assert b == b[..next] + b[next..];
    if |b| - next >= PART_HEADER {
      CheckedIff(b[next..]);
      assert ws[1..] == Visited(b[next..]);
      assert Joined(ws) == b[..next] + Joined(ws[1..]);
      assert Joined(ws) == b <==> Joined(ws[1..]) == b[next..] by {
        if Joined(ws) == b {
          assert Joined(ws)[next..] == Joined(ws[1..]);
        }
      }
      assert (forall i :: 0 <= i < |ws| ==> GoodPart(ws[i].part, 122)) <==>
             GoodPart(p, 122) && forall i :: 0 <= i < |ws[1..]| ==> GoodPart(ws[1..][i].part, 122) by {
        assert forall i :: 0 <= i < |ws[1..]| ==> ws[1..][i] == ws[i + 1];
        assert forall i :: 1 <= i < |ws| ==> ws[i] == ws[1..][i - 1];
      }
    } else {
      assert ws[1..] == [];
      assert Joined(ws) == b[..next];
    }
  }

  function CallFor(w: Written, unit: byte): Call {
    SetFile(w.part.file, w.part.record, RegistersOf(w.data), unit)
  }

  /** The call each sub-request asks for, in order, with its registers in host order. */
  function AllCalls(b: Bytes, unit: byte): (r: seq<Call>)
    requires Walkable(b)
    ensures |r| == |Visited(b)| && forall i :: 0 <= i < |r| ==> r[i] == CallFor(Visited(b)[i], unit)
  {
    seq(|Visited(b)|, i requires 0 <= i < |Visited(b)| => CallFor(Visited(b)[i], unit))
  }

  /** The outcome of the `i`th of some calls made after `done`. */
  function CodeAt(s: Server, done: seq<Call>, calls: seq<Call>, i: nat): byte
    requires i < |calls|
  {
    Code(s, done + calls[..i], calls[i])
  }

  /** `calls` are the first of `all`, none but the last of them failed, and `code` is what the last one returned. */
  predicate UpToFailure(s: Server, done: seq<Call>, calls: seq<Call>, code: byte, all: seq<Call>) {
    && calls != [] && calls <= all
    && (forall i :: 0 <= i < |calls| - 1 ==> CodeAt(s, done, calls, i) == 0)
    && code == CodeAt(s, done, calls, |calls| - 1)
    && (code == 0 ==> calls == all)
  }

  lemma FirstSucceeded(s: Server, done: seq<Call>, c: Call, rest: seq<Call>, code: byte, all: seq<Call>)
    requires Code(s, done, c) == 0 && UpToFailure(s, done + [c], rest, code, all)
    ensures UpToFailure(s, done, [c] + rest, code, [c] + all)
  {
    hide CodeAt;
    var calls := [c] + rest;
    CodeFirst(s, done, c, rest);
    CodeShift(s, done, c, rest, |rest| - 1);
    forall i | 0 <= i < |calls| - 1 ensures CodeAt(s, done, calls, i) == 0 {
      if i > 0 {
        CodeShift(s, done, c, rest, i - 1);
      }
    }
  }

  lemma CodeFirst(s: Server, done: seq<Call>, c: Call, rest: seq<Call>)
    ensures CodeAt(s, done, [c] + rest, 0) == Code(s, done, c)
  {
    assert done + ([c] + rest)[..0] == done;
  }

  lemma CodeShift(s: Server, done: seq<Call>, c: Call, rest: seq<Call>, i: nat)
    requires i < |rest|
    ensures CodeAt(s, done, [c] + rest, i + 1) == CodeAt(s, done + [c], rest, i)
  {
    assert ([c] + rest)[..i + 1] == [c] + rest[..i];
    assert done + ([c] + rest[..i]) == done + [c] + rest[..i];
  }

  /**
   The sub-requests are written one after the other, each once and in order, up to the first callback that fails; its
   exception is the outcome, and no exception means that all of them were written.
   */
  lemma {:induction false} WrittenInOrder(s: Server, done: seq<Call>, unit: byte, b: Bytes)
    requires Walkable(b)
    ensures var (calls, code) := WriteRecords(s, done, unit, b);
            if 21 !in s.installed then calls == [] && code == ILLEGAL_FUNCTION
            else UpToFailure(s, done, calls, code, AllCalls(b, unit))
    decreases |b|
  {
    hide PartAt, Code, RegistersOf, UpToFailure;
    if 21 in s.installed {
      var p := PartAt(b, 0);
      var next := PART_HEADER + 2 * p.length;
      var c := SetFile(p.file, p.record, RegistersOf(b[PART_HEADER..next]), unit);
      var rest := if |b| - next < PART_HEADER then [] else AllCalls(b[next..], unit);
      assert AllCalls(b, unit) == [c] + rest;
      OneCall(s, done, c, rest);
      if Code(s, done, c) == 0 && |b| - next >= PART_HEADER {
        WrittenInOrder(s, done + [c], unit, b[next..]);
        var (calls, code) := WriteRecords(s, done + [c], unit, b[next..]);
        FirstSucceeded(s, done, c, calls, code, rest);
      }
    }
  }

  lemma OneCall(s: Server, done: seq<Call>, c: Call, rest: seq<Call>)
    ensures Code(s, done, c) != 0 || rest == [] ==> UpToFailure(s, done, [c], Code(s, done, c), [c] + rest)
  {
    hide Code;
    assert [c] + [] == [c];
    CodeFirst(s, done, c, []);
  }
}
