/**
 The incremental Server-Sent Events decoder (pkg/protocol/sse.go).

 `Decoder` is the mutable object of the source. Its methods are proved against the functions
 on `State` below; the laws of the decoder are in SseLaws.dfy.
 */
module Sse {
  import opened Bytes

  const LF: byte := 10
  const CR: byte := 13
  const SPACE: byte := 32
  const COLON: byte := 58

  const DATA: bytes := [100, 97, 116, 97]
  const EVENT: bytes := [101, 118, 101, 110, 116]
  const ID: bytes := [105, 100]
  const RETRY: bytes := [114, 101, 116, 114, 121]
  const MESSAGE: bytes := [109, 101, 115, 115, 97, 103, 101]

  datatype Span = Span(start: nat, end: nat)

  /** One fully decoded record. */
  datatype Event = Event(
    event: bytes, data: bytes, id: bytes, hasID: bool, retry: bytes,
    raw: bytes, dataSpans: seq<Span>)

  /** A line of a buffer: its content is [start, end) and its terminator [end, next). */
  datatype Line = Line(start: nat, end: nat, next: nat)

  /** The fields collected for the record that is being decoded. */
  datatype Pending = Pending(
    event: bytes, data: bytes, dataN: nat, spans: seq<Span>,
    id: bytes, hasID: bool, retry: bytes)

  datatype State = State(buf: bytes, scan: nat, rec: Pending) {
    ghost predicate Valid() {
      scan <= |buf|
    }

    function Append(chunk: bytes): State {
      this.(buf := buf + chunk)
    }
  }

  const NO_RECORD := Pending([], [], 0, [], [], false, [])

  const START := State([], 0, NO_RECORD)

  predicate IsEol(c: byte) {
    c == LF || c == CR
  }

  /** The first terminator byte at or after `from`, or `|buf|`. */
  function EolFrom(buf: bytes, from: nat): (i: nat)
    requires from <= |buf|
    ensures from <= i <= |buf|
    ensures i < |buf| ==> IsEol(buf[i])
    ensures forall k :: from <= k < i ==> !IsEol(buf[k])
    decreases |buf| - from
  {
    if from == |buf| || IsEol(buf[from]) then from else EolFrom(buf, from + 1)
  }

  /** The line at `start`, or None while its end is not known. */
  function NextLine(buf: bytes, start: nat, final: bool): (l: Option<Line>)
    requires start <= |buf|
    ensures l.Some? ==> start == l.value.start <= l.value.end <= l.value.next <= |buf|
    ensures l.Some? ==> start < l.value.next
  {
    var i := EolFrom(buf, start);
    if i == |buf| then
      if final && start < |buf| then Some(Line(start, i, i)) else None
    else if buf[i] == LF then
      Some(Line(start, i, i + 1))
    else if i + 1 < |buf| then
      Some(Line(start, i, if buf[i + 1] == LF then i + 2 else i + 1))
    else if final then
      Some(Line(start, i, i + 1))
    else
      None
  }

  /** The offset of the colon of a line, or its end. */
  function ColonOf(buf: bytes, l: Line): (c: nat)
    requires l.start <= l.end <= |buf|
    ensures l.start <= c <= l.end
  {
    IndexFrom(buf[..l.end], COLON, l.start)
  }

  /** A line's field name; a comment's is empty. */
  function NameOf(buf: bytes, l: Line): bytes
    requires l.start <= l.end <= |buf|
  {
    buf[l.start..ColonOf(buf, l)]
  }

  /** Where a line's field value starts: after the colon and at most one space. */
  function ValueStart(buf: bytes, l: Line): (v: nat)
    requires l.start <= l.end <= |buf|
    ensures l.start <= v <= l.end
  {
    var c := ColonOf(buf, l);
    if c == l.end then l.end
    else if c + 1 < l.end && buf[c + 1] == SPACE then c + 2
    else c + 1
  }

  function ValueOf(buf: bytes, l: Line): bytes
    requires l.start <= l.end <= |buf|
  {
    buf[ValueStart(buf, l)..l.end]
  }

  function WithData(rec: Pending, value: bytes, start: nat, canonical: bool): Pending {
    rec.(data := if rec.dataN > 0 then rec.data + [LF] + value else rec.data + value,
    dataN := rec.dataN + 1,
    spans := if rec.dataN == 0 && canonical then [Span(start, start + |value|)] else [])
  }

  /** One non-blank line folded into the pending record. */
  function WithLine(rec: Pending, buf: bytes, l: Line): Pending
    requires l.start < l.end <= |buf|
  {
    var name, value := NameOf(buf, l), ValueOf(buf, l);
    if name == DATA then
      WithData(rec, value, ValueStart(buf, l), ColonOf(buf, l) < l.end)
    else if name == EVENT then rec.(event := value)
    else if name == ID then rec.(id := value, hasID := true)
    else if name == RETRY then rec.(retry := value)
    else rec
  }

  function EventOf(st: State): Event
    requires st.Valid()
  {
    Event(if st.rec.event != [] then st.rec.event else MESSAGE,
          st.rec.data, st.rec.id, st.rec.hasID, st.rec.retry, st.buf[..st.scan],
          if st.rec.dataN == 1 then st.rec.spans else [])
  }

  function AfterDispatch(st: State): (st': State)
    requires st.Valid()
    ensures st'.Valid()
  {
    State(st.buf[st.scan..], 0, NO_RECORD.(id := st.rec.id))
  }

  /** The effect of one line, and the record it completes, if any. */
  function OnLine(st: State, l: Line): (r: (State, seq<Event>))
    requires st.Valid() && l.start == st.scan <= l.end <= l.next <= |st.buf|
    ensures r.0.Valid() && |r.0.buf| - r.0.scan == |st.buf| - l.next
  {
    var next := st.(scan := l.next);
    if l.start < l.end then
      (next.(rec := WithLine(st.rec, st.buf, l)), [])
    else if st.rec.dataN > 0 then
      (AfterDispatch(next), [EventOf(next)])
    else
      (next.(rec := st.rec.(event := [], retry := [])), [])
  }

  /** Every complete line of the buffer, consumed in order. */
  function Scan(st: State, final: bool): (r: (State, seq<Event>))
    requires st.Valid()
    ensures r.0.Valid()
    decreases |st.buf| - st.scan
  {
    match NextLine(st.buf, st.scan, final)
    case None => (st, [])
    case Some(l) =>
      var (st1, ev1) := OnLine(st, l);
      var (st2, ev2) := Scan(st1, final);
      (st2, ev1 + ev2)
  }

  lemma ScanUnfold(st: State, final: bool, l: Line)
    requires st.Valid() && NextLine(st.buf, st.scan, final) == Some(l)
    ensures Scan(st, final) ==
            (Scan(OnLine(st, l).0, final).0, OnLine(st, l).1 + Scan(OnLine(st, l).0, final).1)
  {
  }

  lemma ScanStop(st: State, final: bool)
    requires st.Valid() && NextLine(st.buf, st.scan, final) == None
    ensures Scan(st, final) == (st, [])
  {
  }

  function FeedSpec(st: State, chunk: bytes): (r: (State, seq<Event>))
    requires st.Valid()
    ensures r.0.Valid()
  {
    Scan(st.Append(chunk), false)
  }

  function CloseSpec(st: State): (r: (State, seq<Event>))
    requires st.Valid()
    ensures r.0.Valid()
  {
    var (st1, ev) := Scan(st, true);
    if st1.rec.dataN > 0 then (AfterDispatch(st1), ev + [EventOf(st1)]) else (st1, ev)
  }

  /** What Feed reports: the events it completed, or that the decoder is closed. */
  datatype Fed = ErrClosed | Events(events: seq<Event>)

  class Decoder {
    var buf: bytes
    var scan: nat

    var event: bytes
    var data: bytes
    var dataN: nat
    var spans: seq<Span>
    var id: bytes
    var hasID: bool
    var retry: bytes

    var closed: bool

    ghost predicate Valid()
      reads this
    {
      scan <= |buf|
    }

    ghost function Abs(): (st: State)
      reads this
    {
      State(buf, scan, Pending(event, data, dataN, spans, id, hasID, retry))
    }

    constructor ()
      ensures Valid() && Abs() == START && !closed
    {
      buf, scan := [], 0;
      event, data, dataN, spans, id, hasID, retry := [], [], 0, [], [], false, [];
      closed := false;
    }

    method Feed(chunk: bytes) returns (r: Fed)
      requires Valid()
      modifies this
      ensures Valid() && closed == old(closed)
      ensures old(closed) ==> r == ErrClosed && Abs() == old(Abs())
      ensures !old(closed) ==>
                && Abs() == FeedSpec(old(Abs()), chunk).0
                && r == Events(FeedSpec(old(Abs()), chunk).1)
    {
      if closed {
        return ErrClosed;
      }
      buf := buf + chunk;
      var events := ScanLines(false);
      return Events(events);
    }

    method Close() returns (events: seq<Event>)
      requires Valid()
      modifies this
      ensures Valid() && closed
      ensures old(closed) ==> events == [] && Abs() == old(Abs())
      ensures !old(closed) ==>
                Abs() == CloseSpec(old(Abs())).0 && events == CloseSpec(old(Abs())).1
    {
      if closed {
        return [];
      }
      closed := true;
      events := ScanLines(true);
      if dataN > 0 {
        var ev := Dispatch();
        events := events + [ev];
      }
    }

    method ScanLines(final: bool) returns (events: seq<Event>)
      requires Valid()
      modifies this
      ensures Valid() && closed == old(closed)
      ensures Abs() == Scan(old(Abs()), final).0 && events == Scan(old(Abs()), final).1
    {
      hide Scan, OnLine, NextLine;
      events := [];
      ghost var start, had := Abs(), Abs();
      while true
        invariant Valid() && closed == old(closed) && had == Abs()
        invariant Scan(had, final).0 == Scan(start, final).0
        invariant events + Scan(had, final).1 == Scan(start, final).1
        decreases |buf| - scan
      {
        var l := FindLine(final);
        if l.None? {
          ScanStop(had, final);
          return;
        }
        var done := Consume(l.value);
        ScanUnfold(had, final, l.value);
        Assoc(events, done, Scan(Abs(), final).1);
        events := events + done;
        had := Abs();
      }
    }

    /** The body of scanLines for one complete line. */
    method Consume(l: Line) returns (done: seq<Event>)
      requires Valid() && l.start == scan <= l.end <= l.next <= |buf|
      modifies this
      ensures Valid() && closed == old(closed)
      ensures (Abs(), done) == OnLine(old(Abs()), l)
    {
      scan := l.next;
      if l.start == l.end {
        if dataN > 0 {
          var ev := Dispatch();
          return [ev];
        }
        event, retry := [], [];
        return [];
      }
      FoldField(l);
      return [];
    }

    /** nextLine: scans for a terminator, without changing the decoder. */
    method FindLine(final: bool) returns (l: Option<Line>)
      requires Valid()
      ensures l == NextLine(buf, scan, final)
    {
      var i := scan;
      while i < |buf|
        invariant scan <= i <= |buf|
        invariant EolFrom(buf, scan) == EolFrom(buf, i)
      {
        if buf[i] == LF {
          return Some(Line(scan, i, i + 1));
        } else if buf[i] == CR {
          if i + 1 < |buf| {
            if buf[i + 1] == LF {
              return Some(Line(scan, i, i + 2));
            }
            return Some(Line(scan, i, i + 1));
          }
          if final {
            return Some(Line(scan, i, i + 1));
          }
          return None;
        }
        i := i + 1;
      }
      if final && scan < |buf| {
        return Some(Line(scan, |buf|, |buf|));
      }
      return None;
    }

    method FoldField(l: Line)
      requires Valid() && l.start < l.end <= |buf|
      modifies `event, `data, `dataN, `spans, `id, `hasID, `retry
      ensures Abs() == old(Abs()).(rec := WithLine(old(Abs()).rec, buf, l))
    {
      var start, end := l.start, l.end;
      if buf[start] == COLON {
        assert NameOf(buf, l) == [];
        return;
      }
      var colon := IndexFrom(buf[..end], COLON, start);
      var name, value, vstart := buf[start..colon], [], end;
      if colon < end {
        vstart := colon + 1;
        value := buf[vstart..end];
        if |value| > 0 && value[0] == SPACE {
          value := value[1..];
          vstart := vstart + 1;
        }
      }
      assert value == ValueOf(buf, l);
      if name == DATA {
        AddData(value, vstart, colon < end);
      } else if name == EVENT {
        event := value;
      } else if name == ID {
        id, hasID := value, true;
      } else if name == RETRY {
        retry := value;
      }
    }

    method AddData(value: bytes, vstart: nat, canonical: bool)
      modifies `data, `dataN, `spans
      ensures Abs() == old(Abs()).(rec := WithData(old(Abs()).rec, value, vstart, canonical))
    {
      if dataN > 0 {
        data := data + [LF];
      }
      data := data + value;
      dataN := dataN + 1;
      spans := [];
      if dataN == 1 && canonical {
        spans := [Span(vstart, vstart + |value|)];
      }
    }

    method Dispatch() returns (ev: Event)
      requires Valid()
      modifies this
      ensures Valid() && closed == old(closed)
      ensures Abs() == AfterDispatch(old(Abs())) && ev == EventOf(old(Abs()))
    {
      ev := Event(MESSAGE, data, id, hasID, retry, buf[..scan], []);
      if event != [] {
        ev := ev.(event := event);
      }
      if dataN == 1 {
        ev := ev.(dataSpans := spans);
      }
      buf := buf[scan..];
      scan := 0;
      event := [];
      data, dataN := [], 0;
      spans := [];
      hasID, retry := false, [];
    }
  }
}
