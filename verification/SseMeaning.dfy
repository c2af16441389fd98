/**
 What a stream spells (WHATWG HTML Living Standard, section 9.2.6): rows of a name, a colon, an
 optional space and a value, each ended by LF, CR or CRLF. Every text is written as such rows,
 and the incremental decoder, fed it in any chunks, reports the events that the rows spell.
 */
module SseMeaning {
  import opened Bytes
  import opened Sse
  import opened SseLaws

  /** What stands between a name and its value. */
  datatype Sep = NoColon | Colon | ColonSpace

  /** What ends a row; the last one of a stream may be cut off. */
  datatype End = Lf | Cr | CrLf | Cut

  datatype Row = Blank(end: End) | Field(name: bytes, sep: Sep, value: bytes, end: End)

  function SepText(sep: Sep): bytes {
    match sep
    case NoColon => []
    case Colon => [58]
    case ColonSpace => [58, 32]
  }

  function EndText(end: End): bytes {
    match end
    case Lf => [10]
    case Cr => [13]
    case CrLf => [13, 10]
    case Cut => []
  }

  function Content(r: Row): bytes {
    if r.Blank? then [] else r.name + SepText(r.sep) + r.value
  }

  function RowText(r: Row): bytes {
    Content(r) + EndText(r.end)
  }

  /** The text that the rows write. */
  function Written(rows: seq<Row>): bytes {
    if rows == [] then [] else RowText(rows[0]) + Written(rows[1..])
  }

  predicate OneLine(s: bytes) {
    10 !in s && 13 !in s
  }

  /** A comment has no name; without a colon there is a name and no value. A value keeps its own first space. */
  predicate WellWritten(r: Row) {
    match r
    case Blank(end) => !end.Cut?
    case Field(name, sep, value, _) =>
      && OneLine(name) && 58 !in name && OneLine(value)
      && (sep.NoColon? ==> name != [] && value == [])
      && (sep.Colon? && value != [] ==> value[0] != 32)
  }

  /** A CR does not meet an LF, with which it would be one end; only the last row may be cut off. */
  predicate Follows(r: Row, next: Row) {
    !r.end.Cut? && !(r.end.Cr? && next == Blank(Lf))
  }

  ghost predicate Writable(rows: seq<Row>) {
    && (forall r :: r in rows ==> WellWritten(r))
    && forall i :: 0 <= i < |rows| - 1 ==> Follows(rows[i], rows[i + 1])
  }

  // --------------------------------------------------------------------------- what rows spell

  /** The values of the fields of this name, in order. */
  function Values(rows: seq<Row>, name: string): seq<bytes>
    requires forall c :: c in name ==> c < 128 as char
  {
    if rows == [] then [] else
    var r := rows[|rows| - 1];
    Values(rows[..|rows| - 1], name) + if r.Field? && r.name == BytesOf(name) then [r.value] else []
  }

  function Last(values: seq<bytes>, default: bytes): bytes {
    if values == [] then default else values[|values| - 1]
  }

  /** Joined by line feeds. */
  function Lines(values: seq<bytes>): bytes {
    if values == [] then []
    else if |values| == 1 then values[0]
    else Lines(values[..|values| - 1]) + [10] + values[|values| - 1]
  }

  /** The rows behind the last blank one. */
  function SinceBlank(rows: seq<Row>): seq<Row> {
    if rows == [] || rows[|rows| - 1].Blank? then []
    else SinceBlank(rows[..|rows| - 1]) + [rows[|rows| - 1]]
  }

  predicate IsData(r: Row) {
    r.Field? && r.name == BytesOf("data")
  }

  /** Where the value of the only data row stands; a row without a colon has no place for one. */
  function DataPlace(rows: seq<Row>): seq<Span> {
    if rows == [] then [] else
    var init, r := rows[..|rows| - 1], rows[|rows| - 1];
    if !IsData(r) then DataPlace(init)
    else if Values(init, "data") != [] || r.sep.NoColon? then []
    else
      var start := |Written(init)| + |r.name| + |SepText(r.sep)|;
      [Span(start, start + |r.value|)]
  }

  /** The event of a record: its rows, the id in force before it, and its bytes. */
  function ReadEvent(rows: seq<Row>, id0: bytes, raw: bytes): Event {
    var name := Last(Values(SinceBlank(rows), "event"), []);
    Event(
      if name == [] then BytesOf("message") else name,
      Lines(Values(rows, "data")),
      Last(Values(rows, "id"), id0), Values(rows, "id") != [],
      Last(Values(SinceBlank(rows), "retry"), []),
      raw, if |Values(rows, "data")| == 1 then DataPlace(rows) else [])
  }

  /** The first blank row behind some data, or the number of rows. */
  function RecordEnd(rows: seq<Row>, i: nat): (k: nat)
    requires i <= |rows|
    ensures i <= k <= |rows|
    decreases |rows| - i
  {
    if i == |rows| || (rows[i].Blank? && Values(rows[..i], "data") != []) then i else RecordEnd(rows, i + 1)
  }

  /** The events of a whole stream. The last record needs no blank row. */
  function EventsOf(rows: seq<Row>, id0: bytes): seq<Event>
    decreases |rows|
  {
    var k := RecordEnd(rows, 0);
    if k < |rows| then
      var ev := ReadEvent(rows[..k], id0, Written(rows[..k + 1]));
      [ev] + EventsOf(rows[k + 1..], ev.id)
    else if Values(rows, "data") != [] then [ReadEvent(rows, id0, Written(rows))]
    else []
  }

  // ------------------------------------------------------------------------------- one row

  lemma Names()
    ensures BytesOf("data") == DATA && BytesOf("event") == EVENT && BytesOf("id") == ID && BytesOf("retry") == RETRY
    ensures BytesOf("message") == MESSAGE
  {
  }

  lemma ContentOneLine(r: Row)
    requires WellWritten(r)
    ensures OneLine(Content(r)) && (r.Field? <==> Content(r) != [])
  {
  }

  /** Where a line without LF and CR ends. */
  lemma EolThere(buf: bytes, start: nat, c: bytes, after: bytes)
    requires start <= |buf| && buf[start..] == c + after && OneLine(c)
    requires after == [] || IsEol(after[0])
    ensures start + |c| <= |buf| && EolFrom(buf, start) == start + |c| && buf[start..start + |c|] == c
    ensures buf[start + |c|..] == after
  {
    var s, i := buf[start..], start + |c|;
    assert forall k :: 0 <= k < |s| ==> buf[start + k] == s[k];
    assert forall k :: 0 <= k < |c| ==> s[k] == c[k] && c[k] in c;
    assert |c| < |s| ==> s[|c|] == after[0];
    assert buf[start..i] == s[..|c|] && buf[i..] == s[|c|..];
  }

  lemma LineEnd(buf: bytes, start: nat, i: nat, end: End, more: bytes)
    requires start <= i <= |buf| && EolFrom(buf, start) == i && buf[i..] == EndText(end) + more
    requires end.Cut? ==> more == [] && start < i
    requires end.Cr? ==> more == [] || more[0] != 10
    ensures i + |EndText(end)| <= |buf| && buf[i + |EndText(end)|..] == more
    ensures NextLine(buf, start, true) == Some(Line(start, i, i + |EndText(end)|))
  {
    hide EolFrom;
    var s := buf[i..];
    assert forall k :: 0 <= k < |s| ==> buf[i + k] == s[k];
    assert s[|EndText(end)|..] == more;
  }

  /** The row at the start of what is left is the next line. */
  lemma RowIsLine(buf: bytes, start: nat, r: Row, more: bytes)
    requires start <= |buf| && buf[start..] == RowText(r) + more && WellWritten(r)
    requires r.end.Cut? ==> more == []
    requires r.end.Cr? ==> more == [] || more[0] != 10
    ensures start + |RowText(r)| <= |buf| && buf[start + |RowText(r)|..] == more
    ensures NextLine(buf, start, true) == Some(Line(start, start + |Content(r)|, start + |RowText(r)|))
    ensures buf[start..start + |Content(r)|] == Content(r)
  {
    hide Content, EolFrom, NextLine, EndText;
    ContentOneLine(r);
    var c, end := Content(r), EndText(r.end);
    Assoc(c, end, more);
    EndIsEol(r.end, more);
    EolThere(buf, start, c, end + more);
    LineEnd(buf, start, start + |c|, r.end, more);
  }

  lemma EndIsEol(end: End, more: bytes)
    requires end.Cut? ==> more == []
    ensures EndText(end) + more == [] || IsEol((EndText(end) + more)[0])
  {
  }

  /** A field's line: its colon, its name and its value. */
  lemma ColonThere(buf: bytes, l: Line, name: bytes, after: bytes)
    requires l.start <= l.end <= |buf| && buf[l.start..l.end] == name + after && 58 !in name
    requires after == [] || after[0] == 58
    ensures ColonOf(buf, l) == l.start + |name| && NameOf(buf, l) == name
    ensures buf[l.start + |name|..l.end] == after
  {
    var s, h := buf[l.start..l.end], buf[..l.end];
    assert forall k :: 0 <= k < |s| ==> h[l.start + k] == s[k];
    assert forall k :: 0 <= k < |name| ==> s[k] == name[k] && name[k] in name;
    assert |name| < |s| ==> s[|name|] == after[0];
    assert buf[l.start..l.start + |name|] == s[..|name|];
    assert buf[l.start + |name|..l.end] == s[|name|..];
  }

  lemma FieldIsLine(buf: bytes, l: Line, r: Row)
    requires l.start <= l.end <= |buf| && buf[l.start..l.end] == Content(r) && r.Field? && WellWritten(r)
    ensures NameOf(buf, l) == r.name && ValueOf(buf, l) == r.value
    ensures ValueStart(buf, l) == l.start + |r.name| + |SepText(r.sep)|
    ensures ColonOf(buf, l) < l.end <==> !r.sep.NoColon?
  {
    hide ColonOf, NameOf;
    var after, c := SepText(r.sep) + r.value, l.start + |r.name|;
    Assoc(r.name, SepText(r.sep), r.value);
    ColonThere(buf, l, r.name, after);
    assert forall k :: 0 <= k < |after| ==> buf[c + k] == after[k];
    assert after[|SepText(r.sep)|..] == r.value;
    assert buf[c..l.end][|SepText(r.sep)|..] == buf[c + |SepText(r.sep)|..l.end];
  }

  // ------------------------------------------------------------------------- the record so far

  /** The record that rows without a dispatch have been folded into. */
  function RecordOf(rows: seq<Row>, id0: bytes): Pending {
    Pending(
      Last(Values(SinceBlank(rows), "event"), []),
      Lines(Values(rows, "data")), |Values(rows, "data")|,
      if |Values(rows, "data")| == 1 then DataPlace(rows) else [],
      Last(Values(rows, "id"), id0), Values(rows, "id") != [],
      Last(Values(SinceBlank(rows), "retry"), []))
  }

  lemma ValuesSnoc(rows: seq<Row>, r: Row, name: string)
    requires forall c :: c in name ==> c < 128 as char
    ensures Values(rows + [r], name) ==
            Values(rows, name) + if r.Field? && r.name == BytesOf(name) then [r.value] else []
  {
    assert (rows + [r])[..|rows|] == rows;
  }

  lemma SinceBlankSnoc(rows: seq<Row>, r: Row)
    ensures SinceBlank(rows + [r]) == if r.Blank? then [] else SinceBlank(rows) + [r]
  {
    assert (rows + [r])[..|rows|] == rows;
  }

  lemma LinesSnoc(values: seq<bytes>, v: bytes)
    ensures Lines(values + [v]) == if values == [] then v else Lines(values) + [10] + v
  {
    assert (values + [v])[..|values|] == values;
  }

  lemma DataPlaceSnoc(rows: seq<Row>, r: Row)
    ensures DataPlace(rows + [r]) ==
            if !IsData(r) then DataPlace(rows)
            else if Values(rows, "data") != [] || r.sep.NoColon? then []
            else
              var start := |Written(rows)| + |r.name| + |SepText(r.sep)|;
              [Span(start, start + |r.value|)]
  {
    hide Values, Written, SepText, BytesOf;
    assert (rows + [r])[..|rows|] == rows;
  }

  lemma {:induction false} WrittenAppend(a: seq<Row>, b: seq<Row>)
    ensures Written(a + b) == Written(a) + Written(b)
  {
    hide RowText;
    if a == [] {
      assert a + b == b;
    } else {
      WrittenAppend(a[1..], b);
      assert (a + b)[1..] == a[1..] + b;
      Assoc(RowText(a[0]), Written(a[1..]), Written(b));
    }
  }

  lemma WrittenOne(r: Row)
    ensures Written([r]) == RowText(r)
  {
    assert [r][1..] == [] && RowText(r) + [] == RowText(r);
  }

  /** What one more field does to the values of a name. */
  lemma ValuesAfter(rows: seq<Row>, r: Row, name: string)
    requires (forall c :: c in name ==> c < 128 as char) && r.Field?
    ensures Values(rows + [r], name) ==
            if r.name == BytesOf(name) then Values(rows, name) + [r.value] else Values(rows, name)
  {
    hide Values, BytesOf;
    ValuesSnoc(rows, r, name);
    assert Values(rows, name) + [] == Values(rows, name);
  }

  /** A field that is no data leaves the data alone. */
  lemma DataSame(rows: seq<Row>, r: Row, id0: bytes)
    requires r.Field? && r.name != BytesOf("data")
    ensures
      var was, now := RecordOf(rows, id0), RecordOf(rows + [r], id0);
      now.data == was.data && now.dataN == was.dataN && now.spans == was.spans
  {
    hide Values, SinceBlank, Lines, DataPlace, BytesOf, Last;
    ValuesAfter(rows, r, "data");
    DataPlaceSnoc(rows, r);
  }

  lemma DataMore(rows: seq<Row>, r: Row, id0: bytes)
    requires r.Field? && r.name == BytesOf("data")
    ensures
      var was, now := RecordOf(rows, id0), RecordOf(rows + [r], id0);
      var start := |Written(rows)| + |r.name| + |SepText(r.sep)|;
      var with := WithData(was, r.value, start, !r.sep.NoColon?);
      now.data == with.data && now.dataN == with.dataN && now.spans == with.spans
  {
    hide Values, SinceBlank, Lines, DataPlace, BytesOf, Last, Written;
    ValuesAfter(rows, r, "data");
    DataPlaceSnoc(rows, r);
    var values := Values(rows, "data");
    LinesSnoc(values, r.value);
    NothingSpelled();
    assert values == [] ==> Lines(values) + r.value == r.value;
  }

  /** What a field does to the other parts of a record. */
  lemma OthersAfter(rows: seq<Row>, r: Row, id0: bytes)
    requires r.Field?
    ensures
      var was, now := RecordOf(rows, id0), RecordOf(rows + [r], id0);
      && now.event == (if r.name == EVENT then r.value else was.event)
      && now.retry == (if r.name == RETRY then r.value else was.retry)
      && now.id == (if r.name == ID then r.value else was.id)
      && now.hasID == (r.name == ID || was.hasID)
  {
    hide Values, SinceBlank, Lines, DataPlace, BytesOf;
    Names();
    SinceBlankSnoc(rows, r);
    ValuesAfter(rows, r, "id");
    ValuesAfter(SinceBlank(rows), r, "event");
    ValuesAfter(SinceBlank(rows), r, "retry");
  }

  /** A field's line folds the field into the record. */
  lemma FieldStep(rows: seq<Row>, r: Row, id0: bytes, buf: bytes, l: Line)
    requires r.Field? && WellWritten(r)
    requires l.start == |Written(rows)| < l.end <= |buf| && buf[l.start..l.end] == Content(r)
    ensures RecordOf(rows + [r], id0) == WithLine(RecordOf(rows, id0), buf, l)
  {
    hide Written, Content, NameOf, ValueOf, ValueStart, ColonOf, BytesOf, RecordOf;
    Names();
    FieldIsLine(buf, l, r);
    OthersAfter(rows, r, id0);
    if r.name == DATA {
      DataMore(rows, r, id0);
    } else {
      DataSame(rows, r, id0);
    }
  }

  lemma NothingSpelled()
    ensures Lines([]) == []
  {
  }

  /** A blank row that dispatches nothing forgets the event's name and the retry. */
  lemma BlankStep(rows: seq<Row>, r: Row, id0: bytes)
    requires r.Blank?
    ensures RecordOf(rows + [r], id0) == RecordOf(rows, id0).(event := [], retry := [])
  {
    hide Lines, DataPlace;
    ValuesSnoc(rows, r, "data");
    ValuesSnoc(rows, r, "id");
    SinceBlankSnoc(rows, r);
    DataPlaceSnoc(rows, r);
    assert Values([], "event") == [] && Values([], "retry") == [];
    assert Values(rows, "data") + [] == Values(rows, "data") && Values(rows, "id") + [] == Values(rows, "id");
  }

  // ------------------------------------------------------------------------- the whole stream

  predicate DispatchAt(rows: seq<Row>, i: nat)
    requires i < |rows|
  {
    rows[i].Blank? && Values(rows[..i], "data") != []
  }

  ghost predicate NoDispatch(rows: seq<Row>) {
    forall i :: 0 <= i < |rows| ==> !DispatchAt(rows, i)
  }

  lemma {:induction false} RecordEndIs(rows: seq<Row>, i: nat, k: nat)
    requires i <= k <= |rows| && (forall j :: i <= j < k ==> !DispatchAt(rows, j))
    requires k < |rows| ==> DispatchAt(rows, k)
    ensures RecordEnd(rows, i) == k
    decreases k - i
  {
    hide Values;
    if i < k {
      assert !DispatchAt(rows, i);
      RecordEndIs(rows, i + 1, k);
    }
  }

  lemma NoDispatchSnoc(done: seq<Row>, r: Row)
    requires NoDispatch(done) && !(r.Blank? && Values(done, "data") != [])
    ensures NoDispatch(done + [r])
  {
    hide Values;
    var rows := done + [r];
    forall i | 0 <= i < |rows| ensures !DispatchAt(rows, i) {
      assert rows[..i] == if i < |done| then done[..i] else done;
      assert i < |done| ==> !DispatchAt(done, i);
    }
  }

  /** One line, and the rest. */
  lemma CloseStep(st: State, l: Line)
    requires st.Valid() && NextLine(st.buf, st.scan, true) == Some(l)
    ensures CloseSpec(st).1 == OnLine(st, l).1 + CloseSpec(OnLine(st, l).0).1
  {
    hide Scan, OnLine, NextLine;
    ScanUnfold(st, true, l);
    var (st1, ev1) := OnLine(st, l);
    var (st2, ev2) := Scan(st1, true);
    if st2.rec.dataN > 0 {
      Assoc(ev1, ev2, [EventOf(st2)]);
    }
  }

  /** What follows a row cannot be taken for its end. */
  lemma RestFollows(rest: seq<Row>)
    requires rest != [] && Writable(rest)
    ensures WellWritten(rest[0]) && Writable(rest[1..])
    ensures rest[0].end.Cut? ==> Written(rest[1..]) == []
    ensures rest[0].end.Cr? ==> Written(rest[1..]) == [] || Written(rest[1..])[0] != 10
  {
    assert rest[0] in rest;
    assert forall i :: 0 <= i < |rest[1..]| - 1 ==> rest[1..][i] == rest[i + 1] && Follows(rest[i + 1], rest[i + 2]);
    if |rest| > 1 {
      assert Follows(rest[0], rest[1]) && rest[1] in rest && rest[1..][0] == rest[1];
      if rest[0].end.Cr? {
        FirstByte(rest[1], Written(rest[1..][1..]));
      }
    }
  }

  lemma FirstByte(r: Row, more: bytes)
    requires WellWritten(r) && r != Blank(Lf)
    ensures RowText(r) != [] && (RowText(r) + more)[0] != 10
  {
    ContentOneLine(r);
    if r.Field? {
      assert Content(r)[0] in Content(r);
    }
  }

  /** The decoder at a point of the stream: the rows that it has read of the record. */
  ghost predicate Stands(st: State, done: seq<Row>, rest: seq<Row>, id0: bytes) {
    && st.buf == Written(done) + Written(rest) && st.scan == |Written(done)|
    && st.rec == RecordOf(done, id0)
    && NoDispatch(done) && Writable(rest)
  }

  lemma RowNext(st: State, done: seq<Row>, rest: seq<Row>, id0: bytes) returns (l: Line)
    requires Stands(st, done, rest, id0) && rest != []
    ensures st.Valid() && WellWritten(rest[0]) && Writable(rest[1..])
    ensures l == Line(st.scan, st.scan + |Content(rest[0])|, st.scan + |RowText(rest[0])|)
    ensures l.next <= |st.buf| && st.buf[l.start..l.end] == Content(rest[0])
    ensures NextLine(st.buf, st.scan, true) == Some(l)
    ensures st.buf[..l.next] == Written(done + [rest[0]]) && st.buf[l.next..] == Written(rest[1..])
    ensures st.buf == Written(done + [rest[0]]) + Written(rest[1..])
  {
    hide RecordOf, NoDispatch, Writable, Content, RowText, NextLine;
    var r := rest[0];
    RestFollows(rest);
    assert st.buf[st.scan..] == RowText(r) + Written(rest[1..]);
    RowIsLine(st.buf, st.scan, r, Written(rest[1..]));
    l := Line(st.scan, st.scan + |Content(r)|, st.scan + |RowText(r)|);
    WrittenAppend(done, [r]);
    WrittenOne(r);
    Assoc(Written(done), RowText(r), Written(rest[1..]));
  }

  lemma StreamEnds(st: State, done: seq<Row>, id0: bytes)
    requires Stands(st, done, [], id0)
    ensures st.Valid() && CloseSpec(st).1 == EventsOf(done, id0)
  {
    hide Values, ReadEvent, RecordOf, EventOf, NextLine;
    assert Written([]) == [] && st.buf == Written(done) && st.buf[..st.scan] == st.buf;
    assert NextLine(st.buf, st.scan, true) == None by { NothingLeft(st.buf); }
    ScanStop(st, true);
    RecordEndIs(done, 0, |done|);
    RecordNotEmpty(done, id0);
    EventIs(st, done, id0);
    assert [] + [EventOf(st)] == [EventOf(st)];
  }

  lemma NothingLeft(buf: bytes)
    ensures NextLine(buf, |buf|, true) == None
  {
  }

  /** A blank row behind data dispatches the record. */
  lemma RowDispatches(st: State, done: seq<Row>, rest: seq<Row>, id0: bytes, l: Line)
    requires st.Valid() && l.start == l.end == st.scan <= l.next <= |st.buf| && rest != []
    requires st.rec == RecordOf(done, id0) && Values(done, "data") != []
    requires st.buf[..l.next] == Written(done + [rest[0]]) && st.buf[l.next..] == Written(rest[1..])
    requires Writable(rest[1..])
    ensures
      var ev := ReadEvent(done, id0, Written(done + [rest[0]]));
      && OnLine(st, l).1 == [ev]
      && Stands(OnLine(st, l).0, [], rest[1..], ev.id)
  {
    hide Values, ReadEvent, RecordOf, EventOf, AfterDispatch, Stands, Written;
    var next := st.(scan := l.next);
    RecordNotEmpty(done, id0);
    EventIs(next, done, id0);
    AfterEvent(next, done, id0, rest[1..]);
  }

  lemma RecordNotEmpty(rows: seq<Row>, id0: bytes)
    ensures RecordOf(rows, id0).dataN > 0 <==> Values(rows, "data") != []
  {
    hide Values;
  }

  lemma EventIs(st: State, done: seq<Row>, id0: bytes)
    requires st.Valid() && st.rec == RecordOf(done, id0)
    ensures EventOf(st) == ReadEvent(done, id0, st.buf[..st.scan])
  {
    hide Values, SinceBlank, Lines, DataPlace, BytesOf;
    Names();
  }

  lemma AfterEvent(st: State, done: seq<Row>, id0: bytes, rest: seq<Row>)
    requires st.Valid() && st.rec == RecordOf(done, id0) && st.buf[st.scan..] == Written(rest) && Writable(rest)
    ensures Stands(AfterDispatch(st), [], rest, ReadEvent(done, id0, st.buf[..st.scan]).id)
  {
    hide Values, SinceBlank, Lines, DataPlace, BytesOf, Writable, RecordOf, NoDispatch;
    NoRows();
    IdKept(done, id0, st.buf[..st.scan]);
    assert [] + Written(rest) == Written(rest);
  }

  lemma IdKept(done: seq<Row>, id0: bytes, raw: bytes)
    ensures ReadEvent(done, id0, raw).id == RecordOf(done, id0).id
  {
    hide Values, SinceBlank, Lines, DataPlace, BytesOf;
  }

  lemma NoRows()
    ensures Written([]) == [] && NoDispatch([])
    ensures forall id :: RecordOf([], id) == NO_RECORD.(id := id)
  {
    assert SinceBlank([]) == [] && Values([], "event") == [] && Values([], "retry") == [];
    assert Values([], "data") == [] && Values([], "id") == [];
  }

  lemma EventsSplit(done: seq<Row>, rest: seq<Row>, id0: bytes)
    requires NoDispatch(done) && rest != [] && rest[0].Blank? && Values(done, "data") != []
    ensures
      var ev := ReadEvent(done, id0, Written(done + [rest[0]]));
      EventsOf(done + rest, id0) == [ev] + EventsOf(rest[1..], ev.id)
  {
    hide Values, ReadEvent, Written;
    var rows, k := done + rest, |done|;
    assert rows[..k] == done && rows[..k + 1] == done + [rest[0]] && rows[k + 1..] == rest[1..] && rows[k] == rest[0];
    forall j | 0 <= j < k ensures !DispatchAt(rows, j) {
      assert rows[..j] == done[..j] && !DispatchAt(done, j);
    }
    assert DispatchAt(rows, k);
    RecordEndIs(rows, 0, k);
  }

  lemma {:induction false} StreamRead(st: State, done: seq<Row>, rest: seq<Row>, id0: bytes)
    requires Stands(st, done, rest, id0)
    ensures st.Valid() && CloseSpec(st).1 == EventsOf(done + rest, id0)
    decreases |rest|
  {
    hide CloseSpec, EventsOf, Values, Written, RecordOf, NoDispatch, Writable, NextLine, ReadEvent, Content, RowText;
    hide WithLine, EventOf, AfterDispatch;
    if rest == [] {
      StreamEnds(st, done, id0);
      assert done + rest == done;
    } else {
      var r := rest[0];
      var l := RowNext(st, done, rest, id0);
      CloseStep(st, l);
      ContentOneLine(r);
      if r.Blank? && Values(done, "data") != [] {
        RowDispatches(st, done, rest, id0, l);
        EventsSplit(done, rest, id0);
        StreamRead(OnLine(st, l).0, [], rest[1..], ReadEvent(done, id0, Written(done + [r])).id);
        assert [] + rest[1..] == rest[1..];
      } else {
        RowFolds(st, done, rest, id0, l);
        StreamRead(OnLine(st, l).0, done + [r], rest[1..], id0);
        assert done + [r] + rest[1..] == done + rest;
        assert [] + EventsOf(done + rest, id0) == EventsOf(done + rest, id0);
      }
    }
  }

  lemma RowFolds(st: State, done: seq<Row>, rest: seq<Row>, id0: bytes, l: Line)
    requires Stands(st, done, rest, id0) && rest != [] && st.Valid() && Writable(rest[1..]) && WellWritten(rest[0])
    requires !(rest[0].Blank? && Values(done, "data") != [])
    requires l == Line(st.scan, st.scan + |Content(rest[0])|, st.scan + |RowText(rest[0])|)
    requires l.next <= |st.buf| && st.buf[l.start..l.end] == Content(rest[0])
    requires st.buf[..l.next] == Written(done + [rest[0]])
    requires st.buf == Written(done + [rest[0]]) + Written(rest[1..])
    ensures OnLine(st, l).1 == [] && Stands(OnLine(st, l).0, done + [rest[0]], rest[1..], id0)
  {
    hide Written, NoDispatch, Writable, WithLine, Values, SinceBlank, Lines, DataPlace;
    var r := rest[0];
    ContentOneLine(r);
    NoDispatchSnoc(done, r);
    if r.Field? {
      FieldStep(done, r, id0, st.buf, l);
    } else {
      BlankStep(done, r, id0);
    }
  }

  /** Reading what is complete, and the rest at the end, is reading all of it at the end. */
  lemma {:induction false} ScanTwice(st: State)
    requires st.Valid()
    ensures
      var (st1, ev1) := Scan(st, false);
      Scan(st, true) == (Scan(st1, true).0, ev1 + Scan(st1, true).1)
    decreases |st.buf| - st.scan
  {
    hide OnLine;
    match NextLine(st.buf, st.scan, false)
    case None =>
      ScanStop(st, false);
      assert [] + Scan(st, true).1 == Scan(st, true).1;
    case Some(l) =>
      assert NextLine(st.buf, st.scan, true) == Some(l);
      ScanUnfold(st, false, l);
      ScanUnfold(st, true, l);
      var (st1, ev) := OnLine(st, l);
      ScanTwice(st1);
      Assoc(ev, Scan(st1, false).1, Scan(Scan(st1, false).0, true).1);
  }

  lemma DecodeCloses(chunks: seq<bytes>)
    ensures Decode(chunks) == CloseSpec(START.Append(Concat(chunks))).1
  {
    hide Scan;
    ChunkIndependence(START, chunks);
    var st := START.Append(Concat(chunks));
    ScanTwice(st);
    var (st1, ev1) := Scan(st, false);
    var (st2, ev2) := Scan(st1, true);
    if st2.rec.dataN > 0 {
      Assoc(ev1, ev2, [EventOf(st2)]);
    }
  }

  /** However the text that the rows write is cut, the decoder reports the rows' events. */
  lemma DecodeMeaning(chunks: seq<bytes>, rows: seq<Row>)
    requires Writable(rows) && Concat(chunks) == Written(rows)
    ensures Decode(chunks) == EventsOf(rows, [])
  {
    hide CloseSpec, EventsOf, Decode, Writable, RecordOf, NoDispatch;
    DecodeCloses(chunks);
    NoRows();
    var st := START.Append(Concat(chunks));
    assert st.buf == Written([]) + Written(rows);
    StreamRead(st, [], rows, []);
    assert [] + rows == rows;
  }

  // ------------------------------------------------------------------------- every text is rows

  function IndexOfEol(text: bytes, i: nat): (k: nat)
    requires i <= |text|
    ensures i <= k <= |text| && (k < |text| ==> text[k] == 10 || text[k] == 13)
    ensures forall j :: i <= j < k ==> text[j] != 10 && text[j] != 13
    decreases |text| - i
  {
    if i == |text| || text[i] == 10 || text[i] == 13 then i else IndexOfEol(text, i + 1)
  }

  /** The row that a line without its end is. */
  function RowFor(line: bytes, end: End): Row {
    if line == [] then Blank(end) else
    var c := IndexFrom(line, 58, 0);
    if c == |line| then Field(line, NoColon, [], end)
    else if c + 1 < |line| && line[c + 1] == 32 then Field(line[..c], ColonSpace, line[c + 2..], end)
    else Field(line[..c], Colon, line[c + 1..], end)
  }

  lemma RowForWrites(line: bytes, end: End)
    requires OneLine(line) && (end.Cut? ==> line != [])
    ensures WellWritten(RowFor(line, end)) && RowText(RowFor(line, end)) == line + EndText(end)
    ensures RowFor(line, end).end == end
  {
    hide EndText;
    if line == [] {
    } else {
      FieldFor(line, end);
    }
  }

  lemma FieldFor(line: bytes, end: End)
    requires OneLine(line) && line != []
    ensures WellWritten(RowFor(line, end)) && Content(RowFor(line, end)) == line && RowFor(line, end).end == end
  {
    var c := IndexFrom(line, 58, 0);
    var name := line[..c];
    assert 58 !in name;
    PartsOneLine(line, c);
    if c == |line| {
      SplitLine(line, c, []);
    } else if c + 1 < |line| && line[c + 1] == 32 {
      PartsOneLine(line, c + 2);
      SplitLine(line, c, [58, 32]);
    } else {
      PartsOneLine(line, c + 1);
      SplitLine(line, c, [58]);
    }
  }

  lemma SplitLine(line: bytes, c: nat, sep: bytes)
    requires c + |sep| <= |line| && forall k :: 0 <= k < |sep| ==> line[c + k] == sep[k]
    ensures line == line[..c] + sep + line[c + |sep|..]
  {
  }

  lemma PartsOneLine(line: bytes, i: nat)
    requires OneLine(line) && i <= |line|
    ensures OneLine(line[..i]) && OneLine(line[i..])
  {
  }

  function EndAt(text: bytes, i: nat): End
    requires i <= |text|
  {
    if i == |text| then Cut
    else if text[i] == 10 then Lf
    else if i + 1 < |text| && text[i + 1] == 10 then CrLf
    else Cr
  }

  lemma EndWrites(text: bytes, i: nat)
    requires i < |text| ==> text[i] == 10 || text[i] == 13
    requires i <= |text|
    ensures i + |EndText(EndAt(text, i))| <= |text|
    ensures text[i..] == EndText(EndAt(text, i)) + text[i + |EndText(EndAt(text, i))|..]
  {
  }

  lemma {:induction false} EveryText(text: bytes) returns (rows: seq<Row>)
    ensures Writable(rows) && Written(rows) == text
    decreases |text|
  {
    hide RowText, EndText, WellWritten;
    if text == [] {
      rows := [];
    } else {
      var r, next := FirstRow(text);
      var more := EveryText(text[next..]);
      rows := [r] + more;
      FrontWritable(r, more);
      assert text == text[..next] + text[next..];
    }
  }

  lemma FirstRow(text: bytes) returns (r: Row, next: nat)
    requires text != []
    ensures 0 < next <= |text| && WellWritten(r) && RowText(r) == text[..next]
    ensures r.end.Cut? ==> text[next..] == []
    ensures r.end.Cr? ==> text[next..] == [] || text[next] != 10
  {
    hide EndText, WellWritten, RowText, RowFor;
    var i := IndexOfEol(text, 0);
    var line, end := text[..i], EndAt(text, i);
    RowForWrites(line, end);
    EndWrites(text, i);
    r, next := RowFor(line, end), i + |EndText(end)|;
    assert text[..next] == line + EndText(end) by {
      assert text == line + text[i..];
    }
    EndFacts(text, i);
  }

  lemma EndFacts(text: bytes, i: nat)
    requires i <= |text|
    ensures i < |text| ==> |EndText(EndAt(text, i))| > 0
    ensures
      var end := EndAt(text, i);
      var next := i + |EndText(end)|;
      && (end.Cut? <==> i == |text|) && (end.Cr? ==> next >= |text| || text[next] != 10)
  {
  }

  lemma FrontWritable(r: Row, more: seq<Row>)
    requires WellWritten(r) && Writable(more)
    requires r.end.Cut? ==> Written(more) == []
    requires r.end.Cr? ==> Written(more) == [] || Written(more)[0] != 10
    ensures Writable([r] + more) && Written([r] + more) == RowText(r) + Written(more)
  {
    var rows := [r] + more;
    assert rows[1..] == more;
    if more != [] {
      assert more[0] in more;
      RowNotEmpty(more[0], Written(more[1..]));
      assert Follows(r, more[0]);
    }
    forall i | 0 <= i < |rows| - 1 ensures Follows(rows[i], rows[i + 1]) {
      assert i > 0 ==> Follows(more[i - 1], more[i]);
    }
  }

  lemma RowNotEmpty(r: Row, more: bytes)
    requires WellWritten(r)
    ensures RowText(r) != [] && (r == Blank(Lf) ==> (RowText(r) + more)[0] == 10)
  {
    ContentOneLine(r);
  }

  // ----------------------------------------------------------------------- the place of the data

  lemma {:induction false} PlaceSelects(rows: seq<Row>)
    requires (forall r :: r in rows ==> WellWritten(r)) && |Values(rows, "data")| == 1
    ensures |DataPlace(rows)| <= 1 && OneLine(Values(rows, "data")[0])
    ensures |DataPlace(rows)| == 1 ==>
              var sp := DataPlace(rows)[0];
              && sp.start <= sp.end <= |Written(rows)|
              && Written(rows)[sp.start..sp.end] == Values(rows, "data")[0]
    decreases |rows|
  {
    hide Values, DataPlace, Written, BytesOf, SepText, RowText, WellWritten, OneLine;
    if rows == [] {
      NoValues();
    } else {
      var init, r := rows[..|rows| - 1], rows[|rows| - 1];
      assert r in rows && rows == init + [r] && forall x :: x in init ==> x in rows;
      WrittenAppend(init, [r]);
      WrittenOne(r);
      ValuesSnoc(init, r, "data");
      DataPlaceSnoc(init, r);
      if IsData(r) {
        ValueInRow(Written(init), r);
        ValueOneLine(r);
      } else {
        assert Values(rows, "data") == Values(init, "data");
        PlaceSelects(init);
        if |DataPlace(init)| == 1 {
          var sp := DataPlace(init)[0];
          assert Written(rows)[sp.start..sp.end] == Written(init)[sp.start..sp.end];
        }
      }
    }
  }

  lemma NoValues()
    ensures Values([], "data") == []
  {
  }

  lemma ValueOneLine(r: Row)
    requires r.Field? && WellWritten(r)
    ensures OneLine(r.value)
  {
  }

  lemma ValueInRow(before: bytes, r: Row)
    requires r.Field?
    ensures
      var start, text := |before| + |r.name| + |SepText(r.sep)|, before + RowText(r);
      start + |r.value| <= |text| && text[start..start + |r.value|] == r.value
  {
    var start, text := |before| + |r.name| + |SepText(r.sep)|, before + RowText(r);
    assert text == before + r.name + SepText(r.sep) + r.value + EndText(r.end);
  }

  /** The data span of an event selects exactly its data inside its bytes, and they are one line. */
  lemma SpanSelectsData(rows: seq<Row>, id0: bytes, raw: bytes)
    requires (forall r :: r in rows ==> WellWritten(r)) && Written(rows) <= raw
    ensures
      var ev := ReadEvent(rows, id0, raw);
      && |ev.dataSpans| <= 1
      && (|ev.dataSpans| == 1 ==>
            var sp := ev.dataSpans[0];
            && sp.start <= sp.end <= |raw|
            && raw[sp.start..sp.end] == ev.data && OneLine(ev.data))
  {
    hide Values, Written, DataPlace, BytesOf;
    if |Values(rows, "data")| == 1 {
      PlaceSelects(rows);
      if |DataPlace(rows)| == 1 {
        var sp := DataPlace(rows)[0];
        assert raw[sp.start..sp.end] == Written(rows)[sp.start..sp.end];
      }
    }
  }
}
