/** Reading the passwd and group databases, and the append made under the lock. */
module PasswdDatabase {
  import opened Bytes
  import opened Splitting
  import opened PasswdEntry

  type Record = seq<Text>

  const HASH: Byte := 0x23

  // ----- parsing

  predicate IsCSpace(b: Byte) {
    b == 0x20 || 0x09 <= b <= 0x0D
  }

  /** What the C library calls a space: the blank, tab, line feed, vertical tab, form feed, carriage return. */
  lemma CSpaces(b: Byte)
    ensures IsCSpace(b) <==> b in {0x20, 0x09, 0x0A, 0x0B, 0x0C, 0x0D}
  {
  }

  function SkipSpace(line: Text): (r: Text)
  {
    if line != [] && IsCSpace(line[0]) then SkipSpace(line[1..]) else line
  }

  function DropLineEnd(line: Text): (r: Text)
  {
    if line != [] && line[|line| - 1] in {NEWLINE, CARRIAGE_RETURN} then DropLineEnd(line[..|line| - 1])
    else line
  }

  /** A line's fields, or nothing when it is blank or a comment. */
  function FieldsOf(line: Text): (r: Option<Record>)
    ensures r.Some? ==> |r.value| >= 1
  {
    var trimmed := DropLineEnd(SkipSpace(line));
    if trimmed == [] || trimmed[0] == HASH then None else Some(Split(trimmed, {COLON}))
  }

  /** The source's two trimming loops. */
  method Fields(line: Text) returns (r: Option<Record>)
    ensures r == FieldsOf(line)
  {
    var trimmed := line;
    while trimmed != [] && IsCSpace(trimmed[0])
      invariant SkipSpace(trimmed) == SkipSpace(line)
      decreases |trimmed|
    {
      trimmed := trimmed[1..];
    }
    while trimmed != [] && trimmed[|trimmed| - 1] in {NEWLINE, CARRIAGE_RETURN}
      invariant DropLineEnd(trimmed) == DropLineEnd(SkipSpace(line))
      decreases |trimmed|
    {
      trimmed := trimmed[..|trimmed| - 1];
    }
    if trimmed == [] || trimmed[0] == HASH {
      return None;
    }
    return Some(Split(trimmed, {COLON}));
  }

  /** Indentation and line ends never matter; what is between them decides. */
  lemma FieldsBetween(indent: Text, core: Text, end: Text)
    requires forall i | 0 <= i < |indent| :: IsCSpace(indent[i])
    requires forall i | 0 <= i < |end| :: end[i] in {NEWLINE, CARRIAGE_RETURN}
    requires core != [] && !IsCSpace(core[0]) && core[|core| - 1] !in {NEWLINE, CARRIAGE_RETURN}
    ensures FieldsOf(indent + core + end) == if core[0] == 0x23 then None else Some(Split(core, {0x3A}))
    ensures FieldsOf(indent) == None
  {
    SkipSpaceOver(indent, core + end);
    assert indent + core + end == indent + (core + end);
    DropLineEndOver(core, end);
    SkipSpaceOver(indent, []);
    assert indent + [] == indent;
  }

  lemma {:induction false} SkipSpaceOver(indent: Text, rest: Text)
    requires forall i | 0 <= i < |indent| :: IsCSpace(indent[i])
    requires rest == [] || !IsCSpace(rest[0])
    ensures SkipSpace(indent + rest) == rest
  {
    if indent == [] {
      assert indent + rest == rest;
    } else {
      SkipSpaceOver(indent[1..], rest);
      assert (indent + rest)[1..] == indent[1..] + rest;
    }
  }

  lemma {:induction false} DropLineEndOver(core: Text, end: Text)
    requires forall i | 0 <= i < |end| :: end[i] in {NEWLINE, CARRIAGE_RETURN}
    requires core != [] && core[|core| - 1] !in {NEWLINE, CARRIAGE_RETURN}
    ensures DropLineEnd(core + end) == core
  {
    if end == [] {
      assert core + end == core;
    } else {
      DropLineEndOver(core, end[..|end| - 1]);
      assert (core + end)[..|core + end| - 1] == core + end[..|end| - 1];
    }
  }

  function RecordsOf(lines: seq<Text>): (rs: seq<Record>)
  {
    if lines == [] then []
    else
      var f := FieldsOf(lines[0]);
      (if f.Some? then [f.value] else []) + RecordsOf(lines[1..])
  }

  /** What a reader gets out of a database file: the fields of each line that has any. */
  function Records(contents: Text): (rs: seq<Record>)
  {
    RecordsOf(Split(contents, {NEWLINE}))
  }

  // ----- lookups: the first matching record answers

  predicate HasId(f: Record, id: U32) {
    |f| > 2 && Number(f[2]) == Some(id)
  }

  function IdOwner(rs: seq<Record>, id: U32): (r: Option<Text>)
    ensures r.None? <==> forall i | 0 <= i < |rs| :: !HasId(rs[i], id)
  {
    if rs == [] then None
    else if HasId(rs[0], id) then Some(rs[0][0])
    else
      assert forall i | 1 <= i < |rs| :: rs[i] == rs[1..][i - 1];
      IdOwner(rs[1..], id)
  }

  /** The id's first holder gives the name; past the last record there is none. */
  lemma {:induction false} IdOwnerIsFirst(rs: seq<Record>, id: U32) returns (i: nat)
    ensures i <= |rs| && forall j | 0 <= j < i :: !HasId(rs[j], id)
    ensures i < |rs| ==> HasId(rs[i], id)
    ensures IdOwner(rs, id) == if i < |rs| then Some(rs[i][0]) else None
  {
    i := 0;
    if rs != [] && !HasId(rs[0], id) {
      i := IdOwnerIsFirst(rs[1..], id);
      i := i + 1;
    }
  }

  predicate HasName(f: Record, name: Text) {
    |f| > 0 && f[0] == name
  }

  function NameRecord(rs: seq<Record>, name: Text): (r: Option<Record>)
    ensures r.None? <==> forall i | 0 <= i < |rs| :: !HasName(rs[i], name)
    ensures r.Some? ==> HasName(r.value, name) && r.value in rs
  {
    if rs == [] then None
    else if HasName(rs[0], name) then Some(rs[0])
    else
      assert forall i | 1 <= i < |rs| :: rs[i] == rs[1..][i - 1];
      NameRecord(rs[1..], name)
  }

  lemma {:induction false} NameRecordIsFirst(rs: seq<Record>, name: Text) returns (i: nat)
    ensures i <= |rs| && forall j | 0 <= j < i :: !HasName(rs[j], name)
    ensures i < |rs| ==> HasName(rs[i], name)
    ensures NameRecord(rs, name) == if i < |rs| then Some(rs[i]) else None
  {
    i := 0;
    if rs != [] && !HasName(rs[0], name) {
      i := NameRecordIsFirst(rs[1..], name);
      i := i + 1;
    }
  }

  datatype NameOwner = OwnerUid(uid: U32) | Unparseable(raw: Text)

  function PasswdNameForUid(contents: Text, uid: U32): (r: Option<Text>)
  {
    IdOwner(Records(contents), uid)
  }

  function PasswdUidForName(contents: Text, name: Text): (r: Option<NameOwner>)
  {
    match NameRecord(Records(contents), name)
    case None => None
    case Some(f) =>
      var raw := if |f| > 2 then f[2] else [];
      match Number(raw)
      case Some(uid) => Some(OwnerUid(uid))
      case None => Some(Unparseable(raw))
  }

  // ----- scans

  datatype Scan = Absent | Present(owner: Text) | Conflict(detail: Text)

  function PasswdScan(contents: Text, uid: U32, name: Text): (r: Scan)
  {
    match PasswdNameForUid(contents, uid)
    case Some(found) => Present(found)
    case None =>
      match PasswdUidForName(contents, name)
      case Some(OwnerUid(other)) => Conflict(Decimal(other))
      case Some(Unparseable(raw)) => Conflict(raw)
      case None => Absent
  }

  function GroupScan(contents: Text, name: Text, gid: U32): (r: Scan)
  {
    match IdOwner(Records(contents), gid)
    case Some(owner) => Present(owner)
    case None =>
      match NameRecord(Records(contents), name)
      case Some(f) => Conflict(if |f| > 2 then f[2] else [])
      case None => Absent
  }

  /** The scan `main` hands to the append, for either kind of entry. */
  function ScanFor(e: Entry, contents: Text): (r: Scan)
  {
    if e.Passwd? then PasswdScan(contents, e.uid, e.name) else GroupScan(contents, e.name, e.uid)
  }

  /** Both scans give the one verdict the identity rule asks for, whatever else the file holds. */
  lemma ScanVerdict(e: Entry, contents: Text)
    ensures var rs := Records(contents);
            && (ScanFor(e, contents) == Absent
                <==> forall i | 0 <= i < |rs| :: !HasId(rs[i], e.uid) && !HasName(rs[i], e.name))
            && (ScanFor(e, contents).Present? <==> exists i | 0 <= i < |rs| :: HasId(rs[i], e.uid))
  {
  }

  /** The third field, or nothing where there is none. */
  function IdField(f: Record): Text {
    if |f| > 2 then f[2] else []
  }

  /** Whose id it is when it is taken, and which id the name has when only the name is. */
  lemma ScanReports(e: Entry, contents: Text, i: nat)
    requires i < |Records(contents)|
    ensures var rs, f := Records(contents), Records(contents)[i];
            && (HasId(f, e.uid) && (forall j | 0 <= j < i :: !HasId(rs[j], e.uid)) ==>
                  ScanFor(e, contents) == Present(f[0]))
            && ((forall j | 0 <= j < |rs| :: !HasId(rs[j], e.uid))
                && HasName(f, e.name) && (forall j | 0 <= j < i :: !HasName(rs[j], e.name)) ==>
                  var number := Number(IdField(f));
                  ScanFor(e, contents) ==
                  Conflict(if e.Passwd? && number.Some? then Decimal(number.value) else IdField(f)))
  {
    var n := IdOwnerIsFirst(Records(contents), e.uid);
    var m := NameRecordIsFirst(Records(contents), e.name);
  }

  // ----- the append

  /** The bytes one append writes: a newline the file was missing, the line, a newline. */
  function Addition(contents: Text, line: Text): (buf: Text)
  {
    (if contents != [] && contents[|contents| - 1] != NEWLINE then [NEWLINE] else []) + line + [NEWLINE]
  }

  /** The file's lines, each ended by its newline; a last one may lack it. */
  function Lines(contents: Text): (lines: seq<Text>) {
    var pieces := Split(contents, {NEWLINE});
    if pieces[|pieces| - 1] == [] then pieces[..|pieces| - 1] else pieces
  }

  lemma SplitEnded(last: Text)
    requires Free(last, {NEWLINE})
    ensures Split(last + [NEWLINE], {NEWLINE}) == [last, []]
  {
    SplitAt(last, NEWLINE, [], {NEWLINE});
    SplitFree(last, {NEWLINE});
    assert last + [NEWLINE] + [] == last + [NEWLINE];
  }

  lemma LinesOfEnded(front: Text, last: Text)
    requires Free(last, {NEWLINE})
    ensures Lines(front + [NEWLINE] + (last + [NEWLINE])) == Split(front, {NEWLINE}) + [last]
  {
    SplitAt(front, NEWLINE, last + [NEWLINE], {NEWLINE});
    SplitEnded(last);
    DropLast(Split(front, {NEWLINE}), last);
  }

  lemma DropLast(pieces: seq<Text>, last: Text)
    ensures var all := pieces + [last, []];
            all[|all| - 1] == [] && all[..|all| - 1] == pieces + [last]
  {
  }

  lemma {:induction false} LastPieceEmpty(contents: Text)
    requires contents != []
    ensures var pieces := Split(contents, {NEWLINE});
            pieces[|pieces| - 1] == [] <==> contents[|contents| - 1] == NEWLINE
  {
    if |contents| > 1 {
      LastPieceEmpty(contents[1..]);
    } else {
      assert contents[1..] == [];
    }
  }

  lemma LinesWithEnd(front: Text)
    ensures Lines(front + [NEWLINE]) == Split(front, {NEWLINE})
  {
    SplitAt(front, NEWLINE, [], {NEWLINE});
    assert front + [NEWLINE] + [] == front + [NEWLINE];
    var pieces := Split(front, {NEWLINE});
    assert (pieces + [[]])[..|pieces|] == pieces;
  }

  lemma LinesWithoutEnd(contents: Text)
    requires contents != [] && contents[|contents| - 1] != NEWLINE
    ensures Lines(contents) == Split(contents, {NEWLINE})
  {
    LastPieceEmpty(contents);
  }

  /** One line is added at the end, its newline included: nothing is glued to it, and no blank line appears. */
  lemma AdditionAddsOneLine(contents: Text, line: Text)
    requires Free(line, {NEWLINE})
    ensures Lines(contents + Addition(contents, line)) == Lines(contents) + [line]
  {
    var after := contents + Addition(contents, line);
    if contents == [] {
      assert after == line + [NEWLINE];
      LinesWithEnd(line);
      SplitFree(line, {NEWLINE});
      assert Lines([]) == [];
    } else if contents[|contents| - 1] == NEWLINE {
      var front := contents[..|contents| - 1];
      assert contents == front + [NEWLINE];
      assert after == front + [NEWLINE] + (line + [NEWLINE]);
      LinesWithEnd(front);
      LinesOfEnded(front, line);
    } else {
      assert after == contents + [NEWLINE] + (line + [NEWLINE]);
      LinesWithoutEnd(contents);
      LinesOfEnded(contents, line);
    }
  }

  lemma {:induction false} RecordsOfConcat(a: seq<Text>, b: seq<Text>)
    ensures RecordsOf(a + b) == RecordsOf(a) + RecordsOf(b)
  {
    if a == [] {
      assert a + b == b;
    } else {
      assert (a + b)[1..] == a[1..] + b;
      RecordsOfConcat(a[1..], b);
      var first := FieldsOf(a[0]);
      var head := if first.Some? then [first.value] else [];
      assert head + (RecordsOf(a[1..]) + RecordsOf(b)) == head + RecordsOf(a[1..]) + RecordsOf(b);
    }
  }

  lemma RecordsAtNewline(a: Text, b: Text)
    ensures Records(a + [NEWLINE] + b) == Records(a) + Records(b)
  {
    SplitAt(a, NEWLINE, b, {NEWLINE});
    RecordsOfConcat(Split(a, {NEWLINE}), Split(b, {NEWLINE}));
  }

  /** One line, not blank, not a comment and with no line end inside, is one record. */
  lemma RecordsOfLine(line: Text)
    requires line != [] && !IsCSpace(line[0]) && line[0] != HASH
    requires Free(line, {NEWLINE, CARRIAGE_RETURN})
    ensures Records(line) == [Split(line, {COLON})]
  {
    SplitFree(line, {NEWLINE});
    assert SkipSpace(line) == line;
    assert DropLineEnd(line) == line;
    assert FieldsOf(line) == Some(Split(line, {COLON}));
    assert RecordsOf([line]) == [Split(line, {COLON})];
  }

  lemma RecordsOfEntry(e: Entry)
    requires Accepted(e)
    ensures Records(Line(e)) == [PrintedFields(e)]
  {
    LineSplitsBack(e);
    assert IsNameByte(e.name[0]);
    RecordsOfLine(Line(e));
  }

  /** Appending a line to any bytes at all adds that line's records and disturbs no other. */
  lemma RecordsAfterAddition(contents: Text, line: Text)
    ensures Records(contents + Addition(contents, line)) == Records(contents) + Records(line)
  {
    assert FieldsOf([]) == None;
    assert RecordsOf([[]]) == [];
    var tail := line + [NEWLINE];
    RecordsAtNewline(line, []);
    assert line + [NEWLINE] + [] == tail;
    if contents == [] {
      assert contents + Addition(contents, line) == tail;
    } else if contents[|contents| - 1] != NEWLINE {
      assert contents + Addition(contents, line) == contents + [NEWLINE] + tail;
      RecordsAtNewline(contents, tail);
    } else {
      var front := contents[..|contents| - 1];
      assert contents == front + [NEWLINE] + [];
      RecordsAtNewline(front, []);
      assert contents + Addition(contents, line) == front + [NEWLINE] + tail;
      RecordsAtNewline(front, tail);
    }
  }

  /**
   * The append neither damages nor hides anything: over any bytes at all, the records afterwards are
   * the records before and exactly one more, holding exactly the printed fields.
   */
  lemma RecordsAfterAppend(contents: Text, e: Entry)
    requires Accepted(e)
    ensures Records(contents + Addition(contents, Line(e))) == Records(contents) + [PrintedFields(e)]
  {
    RecordsAfterAddition(contents, Line(e));
    RecordsOfEntry(e);
  }

  lemma {:induction false} IdOwnerSnoc(rs: seq<Record>, r: Record, id: U32)
    ensures IdOwner(rs + [r], id) ==
            if IdOwner(rs, id).Some? then IdOwner(rs, id) else if HasId(r, id) then Some(r[0]) else None
  {
    if rs != [] {
      IdOwnerSnoc(rs[1..], r, id);
      assert (rs + [r])[1..] == rs[1..] + [r];
    }
  }

  lemma {:induction false} NameRecordSnoc(rs: seq<Record>, r: Record, name: Text)
    ensures NameRecord(rs + [r], name) ==
            if NameRecord(rs, name).Some? then NameRecord(rs, name) else if HasName(r, name) then Some(r) else None
  {
    if rs != [] {
      NameRecordSnoc(rs[1..], r, name);
      assert (rs + [r])[1..] == rs[1..] + [r];
    }
  }

  lemma PrintedIdentity(e: Entry)
    ensures var f := PrintedFields(e);
            |f| > 2 && f[0] == e.name && Number(f[2]) == Some(e.uid)
  {
    NumberOfDecimal(e.uid);
  }

  /**
   * After an append the scan allowed, the new id and name resolve to each other, and a rescan finds
   * nothing to do.
   */
  lemma AppendResolves(contents: Text, after: Text, e: Entry)
    requires Accepted(e)
    requires ScanFor(e, contents) == Absent
    requires after == contents + Addition(contents, Line(e))
    ensures PasswdNameForUid(after, e.uid) == Some(e.name)
    ensures PasswdUidForName(after, e.name) == Some(OwnerUid(e.uid))
    ensures ScanFor(e, after) == Present(e.name)
  {
    var rs := Records(contents);
    var f := PrintedFields(e);
    RecordsAfterAppend(contents, e);
    ScanVerdict(e, contents);
    PrintedIdentity(e);
    IdOwnerSnoc(rs, f, e.uid);
    NameRecordSnoc(rs, f, e.name);
  }

  /** Every lookup of anybody else answers what it answered before. */
  lemma AppendKeepsOthers(contents: Text, after: Text, e: Entry, id: U32, name: Text)
    requires Accepted(e)
    requires after == contents + Addition(contents, Line(e))
    ensures id != e.uid ==> PasswdNameForUid(after, id) == PasswdNameForUid(contents, id)
    ensures name != e.name ==> PasswdUidForName(after, name) == PasswdUidForName(contents, name)
  {
    var f := PrintedFields(e);
    RecordsAfterAppend(contents, e);
    PrintedIdentity(e);
    IdOwnerSnoc(Records(contents), f, id);
    NameRecordSnoc(Records(contents), f, name);
  }

  // ----- the file itself

  datatype OpenResult = Opened | Refused | Broken

  /** What the operating system answers to the calls `append_locked` makes. */
  datatype Os = Os(open: OpenResult, lockOk: bool, readOk: bool, writeOk: bool)

  datatype Outcome = Appended | AlreadyPresent(owner: Text) | ConflictsWith(detail: Text) | NotWritable

  datatype AppendError = Prepare | Write

  class DatabaseFile {
    var contents: Text

    constructor (contents: Text)
      ensures this.contents == contents
    {
      this.contents := contents;
    }

    /**
     * `scan` sees the bytes read under the lock. A write lands whole or not at all; every other path
     * leaves the bytes alone.
     */
    method AppendLocked(line: Text, scan: Text -> Scan, os: Os) returns (r: Result<Outcome, AppendError>)
      modifies this
      ensures r == Ok(Appended) <==> os == Os(Opened, true, true, true) && scan(old(contents)) == Absent
      ensures r == Ok(Appended) ==> Records(contents) == old(Records(contents)) + Records(line)
      ensures r == Ok(Appended) ==> contents == old(contents) + Addition(old(contents), line)
      ensures r != Ok(Appended) ==> contents == old(contents)
      ensures r == Ok(NotWritable) <==> os.open == Refused
      ensures r == Err(Prepare) <==> os.open == Broken || (os.open == Opened && !(os.lockOk && os.readOk))
      ensures r == Err(Write) <==> os == Os(Opened, true, true, false) && scan(old(contents)) == Absent
      ensures forall owner :: r == Ok(AlreadyPresent(owner)) <==>
                os.open == Opened && os.lockOk && os.readOk && scan(old(contents)) == Present(owner)
      ensures forall detail :: r == Ok(ConflictsWith(detail)) <==>
                os.open == Opened && os.lockOk && os.readOk && scan(old(contents)) == Conflict(detail)
    {
      match os.open {
        case Refused => return Ok(NotWritable);
        case Broken => return Err(Prepare);
        case Opened =>
      }
      if !os.lockOk || !os.readOk {
        return Err(Prepare);
      }
      match scan(contents) {
        case Present(owner) => return Ok(AlreadyPresent(owner));
        case Conflict(detail) => return Ok(ConflictsWith(detail));
        case Absent =>
      }
      var buf: Text := [];
      if contents != [] && contents[|contents| - 1] != NEWLINE {
        buf := buf + [NEWLINE];
      }
      buf := buf + line;
      buf := buf + [NEWLINE];
      if !os.writeOk {
        return Err(Write);
      }
      assert buf == Addition(contents, line);
      RecordsAfterAddition(contents, line);
      contents := contents + buf;
      return Ok(Appended);
    }
  }
}
