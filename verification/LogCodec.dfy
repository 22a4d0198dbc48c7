/** Log records and their bytes. */
module LogCodec {
  import opened Common

  type Byte = x: int | 0 <= x < 256

  datatype Option<T> = None | Some(value: T)

  datatype LogType = UPDATE | INSERT | DELETE | BEGIN | COMMIT | ABORT | CLR_UPDATE | CLR_INSERT | CLR_DELETE

  const LOG_HEADER_SIZE := 24

  // ---- integers

  /** The `n` low bytes of a number, least significant first. */
  function Bytes(v: nat, n: nat): (bs: seq<Byte>)
    ensures |bs| == n
  {
    if n == 0 then [] else [v % 256] + Bytes(v / 256, n - 1)
  }

  function Number(bs: seq<Byte>): nat {
    if bs == [] then 0 else bs[0] + 256 * Number(bs[1..])
  }

  lemma {:induction false} NumberOfBytes(v: nat, n: nat)
    requires v < Pow256(n)
    ensures Number(Bytes(v, n)) == v
  {
    if n == 0 {
    } else {
      NumberOfBytes(v / 256, n - 1);
      assert Bytes(v, n)[1..] == Bytes(v / 256, n - 1);
    }
  }

  predicate Int32(v: int) {
    -0x8000_0000 <= v < 0x8000_0000
  }

  function Int32Bytes(v: int): (bs: seq<Byte>)
    requires Int32(v)
    ensures |bs| == 4
  {
    Bytes(if v < 0 then v + 0x1_0000_0000 else v, 4)
  }

  function Int32Of(bs: seq<Byte>): int {
    var u := Number(bs);
    if u >= 0x8000_0000 then u - 0x1_0000_0000 else u
  }

  lemma Pow256s()
    ensures Pow256(4) == 0x1_0000_0000 && Pow256(8) == 0x1_0000_0000_0000_0000
  {
    assert Pow256(2) == 65536;
    assert Pow256(4) == 256 * (256 * Pow256(2));
    assert Pow256(6) == 256 * (256 * Pow256(4));
    assert Pow256(8) == 256 * (256 * Pow256(6));
  }

  lemma Int32RoundTrip(v: int)
    requires Int32(v)
    ensures Int32Of(Int32Bytes(v)) == v
  {
    Pow256s();
    NumberOfBytes(if v < 0 then v + 0x1_0000_0000 else v, 4);
  }

  // ---- records

  datatype Body =
    | NoBody
    | Row(value: seq<Byte>, pageNo: int, slotNo: int, table: seq<Byte>)
    | Change(before: seq<Byte>, after: seq<Byte>, pageNo: int, slotNo: int, table: seq<Byte>)

  datatype LogRecord = LogRecord(kind: LogType, lsn: int, tid: int, prev: int, undoNext: int, body: Body)

  function KindCode(k: LogType): int {
    match k
    case UPDATE => 0
    case INSERT => 1
    case DELETE => 2
    case BEGIN => 3
    case COMMIT => 4
    case ABORT => 5
    case CLR_UPDATE => 6
    case CLR_INSERT => 7
    case CLR_DELETE => 8
  }

  function KindOf(c: int): Option<LogType> {
    match c
    case 0 => Some(UPDATE)
    case 1 => Some(INSERT)
    case 2 => Some(DELETE)
    case 3 => Some(BEGIN)
    case 4 => Some(COMMIT)
    case 5 => Some(ABORT)
    case 6 => Some(CLR_UPDATE)
    case 7 => Some(CLR_INSERT)
    case 8 => Some(CLR_DELETE)
    case _ => None
  }

  predicate HasRow(k: LogType) {
    k == INSERT || k == DELETE || k == CLR_INSERT || k == CLR_DELETE
  }

  predicate HasChange(k: LogType) {
    k == UPDATE || k == CLR_UPDATE
  }

  predicate ValidValue(value: seq<Byte>) {
    |value| < 0x8000_0000
  }

  /** A body that fits its fields. Both values of an update are rows of one table and so have
      the same size. */
  predicate ValidBody(b: Body) {
    match b
    case NoBody => true
    case Row(v, p, s, t) => ValidValue(v) && Int32(p) && Int32(s) && |t| < 0x1_0000_0000_0000_0000
    case Change(o, n, p, s, t) => ValidValue(o) && |n| == |o| && Int32(p) && Int32(s) && |t| < 0x1_0000_0000_0000_0000
  }

  predicate ValidRecord(r: LogRecord) {
    && Int32(r.lsn) && Int32(r.tid) && Int32(r.prev) && Int32(r.undoNext)
    && r.body.Row? == HasRow(r.kind) && r.body.Change? == HasChange(r.kind)
    && ValidBody(r.body)
    && TotalLength(r) < 0x1_0000_0000
  }

  function BodyLength(b: Body): nat {
    match b
    case NoBody => 0
    case Row(v, _, _, t) => 4 + |v| + 8 + 8 + |t|
    case Change(o, n, _, _, t) => 4 + |o| + 4 + |n| + 8 + 8 + |t|
  }

  /** `log_tot_len_`. */
  function TotalLength(r: LogRecord): nat {
    LOG_HEADER_SIZE + BodyLength(r.body)
  }

  // ---- serialize

  function ValueBytes(v: seq<Byte>): seq<Byte>
    requires ValidValue(v)
  {
    Int32Bytes(|v|) + v
  }

  function PlaceBytes(p: int, s: int, t: seq<Byte>): seq<Byte>
    requires Int32(p) && Int32(s)
  {
    Int32Bytes(p) + Int32Bytes(s) + Bytes(|t|, 8) + t
  }

  function BodyBytes(b: Body): (bs: seq<Byte>)
    requires ValidBody(b)
    ensures |bs| == BodyLength(b)
  {
    match b
    case NoBody => []
    case Row(v, p, s, t) => ValueBytes(v) + PlaceBytes(p, s, t)
    case Change(o, n, p, s, t) => ValueBytes(o) + (ValueBytes(n) + PlaceBytes(p, s, t))
  }

  function HeaderBytes(r: LogRecord): (bs: seq<Byte>)
    requires ValidRecord(r)
    ensures |bs| == LOG_HEADER_SIZE
  {
    Int32Bytes(KindCode(r.kind)) + Int32Bytes(r.lsn) + Bytes(TotalLength(r), 4) + Int32Bytes(r.tid)
    + Int32Bytes(r.prev) + Int32Bytes(r.undoNext)
  }

  function Serialize(r: LogRecord): (bs: seq<Byte>)
    requires ValidRecord(r)
    ensures |bs| == TotalLength(r)
  {
    HeaderBytes(r) + BodyBytes(r.body)
  }

  /** Records of ordinary size can be written. */
  lemma SmallValid(r: LogRecord)
    requires Int32(r.lsn) && Int32(r.tid) && Int32(r.prev) && Int32(r.undoNext)
    requires r.body.Row? == HasRow(r.kind) && r.body.Change? == HasChange(r.kind)
    requires !r.body.NoBody? ==> Int32(r.body.pageNo) && Int32(r.body.slotNo) && |r.body.table| < 0x4000_0000
    requires r.body.Row? ==> |r.body.value| < 0x4000_0000
    requires r.body.Change? ==> |r.body.before| == |r.body.after| < 0x2000_0000
    ensures ValidRecord(r)
  {
  }

  // ---- the layout of a record

  /** The 32-bit word at a place, least significant byte first. */
  function WordAt(bs: seq<Byte>, at: nat): nat
    requires at + 4 <= |bs|
  {
    bs[at] as int + 0x100 * (bs[at + 1] as int) + 0x1_0000 * (bs[at + 2] as int) + 0x100_0000 * (bs[at + 3] as int)
  }

  function Unsigned(v: int): int {
    if v < 0 then v + 0x1_0000_0000 else v
  }

  lemma WordIs(v: nat)
    requires v < 0x1_0000_0000
    ensures WordAt(Bytes(v, 4), 0) == v
  {
    var w := v / 256;
    var x := w / 256;
    assert Bytes(v, 4) == [v % 256] + Bytes(w, 3);
    assert Bytes(w, 3) == [w % 256] + Bytes(x, 2);
    assert Bytes(x, 2) == [x % 256] + Bytes(x / 256, 1);
    assert Bytes(x / 256, 1) == [x / 256 % 256] + Bytes(x / 256 / 256, 0);
  }

  lemma WordPart(bs: seq<Byte>, at: nat, v: nat)
    requires v < 0x1_0000_0000 && at + 4 <= |bs| && bs[at..at + 4] == Bytes(v, 4)
    ensures WordAt(bs, at) == v
  {
    hide Bytes;
    WordIs(v);
    var w := bs[at..at + 4];
    assert w[0] == bs[at] && w[1] == bs[at + 1] && w[2] == bs[at + 2] && w[3] == bs[at + 3];
  }

  lemma HeaderParts(r: LogRecord, rest: seq<Byte>)
    requires ValidRecord(r)
    ensures var bs := HeaderBytes(r) + rest;
            && bs[0..4] == Int32Bytes(KindCode(r.kind)) && bs[4..8] == Int32Bytes(r.lsn)
            && bs[8..12] == Bytes(TotalLength(r), 4) && bs[12..16] == Int32Bytes(r.tid)
            && bs[16..20] == Int32Bytes(r.prev) && bs[20..24] == Int32Bytes(r.undoNext)
  {
    hide Bytes, Int32Bytes, TotalLength;
  }

  /** The header fields by their offsets. */
  lemma HeaderLayout(r: LogRecord)
    requires ValidRecord(r)
    ensures var bs := Serialize(r);
            && |bs| >= 24 && WordAt(bs, 0) == KindCode(r.kind) && WordAt(bs, 4) == Unsigned(r.lsn)
            && WordAt(bs, 8) == |bs| && WordAt(bs, 12) == Unsigned(r.tid)
            && WordAt(bs, 16) == Unsigned(r.prev) && WordAt(bs, 20) == Unsigned(r.undoNext)
  {
    hide Bytes, BodyBytes, HeaderBytes, BodyLength;
    var bs := Serialize(r);
    HeaderParts(r, BodyBytes(r.body));
    WordPart(bs, 0, KindCode(r.kind));
    WordPart(bs, 4, Unsigned(r.lsn));
    WordPart(bs, 8, TotalLength(r));
    WordPart(bs, 12, Unsigned(r.tid));
    WordPart(bs, 16, Unsigned(r.prev));
    WordPart(bs, 20, Unsigned(r.undoNext));
  }

  /** Where a record identifier and a table name start: page number, slot number, length of the name, name. */
  ghost predicate PlaceStands(bs: seq<Byte>, at: nat, p: int, s: int, t: seq<Byte>) {
    && at + 16 + |t| == |bs| && WordAt(bs, at) == Unsigned(p) && WordAt(bs, at + 4) == Unsigned(s)
    && bs[at + 8..at + 16] == Bytes(|t|, 8) && bs[at + 16..] == t
  }

  ghost predicate ValueStands(bs: seq<Byte>, at: nat, v: seq<Byte>) {
    at + 4 + |v| <= |bs| && WordAt(bs, at) == |v| && bs[at + 4..at + 4 + |v|] == v
  }

  /** Behind the header: the value, or old and new value, each with its length in front, and the place. */
  lemma BodyLayout(r: LogRecord)
    requires ValidRecord(r)
    ensures match r.body {
              case NoBody => |Serialize(r)| == 24
              case Row(v, p, s, t) => ValueStands(Serialize(r), 24, v) && PlaceStands(Serialize(r), 28 + |v|, p, s, t)
              case Change(o, n, p, s, t) =>
                && ValueStands(Serialize(r), 24, o) && ValueStands(Serialize(r), 28 + |o|, n)
                && PlaceStands(Serialize(r), 32 + |o| + |n|, p, s, t)
            }
  {
    hide Bytes, HeaderBytes, ValueBytes, PlaceBytes, ValueStands, PlaceStands;
    match r.body
    case NoBody =>
    case Row(v, p, s, t) =>
      RowLayout(HeaderBytes(r), v, p, s, t);
    case Change(o, n, p, s, t) =>
      ChangeLayout(HeaderBytes(r), o, n, p, s, t);
  }

  lemma RowLayout(h: seq<Byte>, v: seq<Byte>, p: int, s: int, t: seq<Byte>)
    requires |h| == 24 && ValidValue(v) && Int32(p) && Int32(s)
    ensures var bs := h + (ValueBytes(v) + PlaceBytes(p, s, t));
            ValueStands(bs, 24, v) && PlaceStands(bs, 28 + |v|, p, s, t)
  {
    hide PlaceBytes, ValueStands, PlaceStands, Int32Bytes;
    ValueIn(h, v, PlaceBytes(p, s, t));
    PlaceIn(h + ValueBytes(v), p, s, t);
    assert h + (ValueBytes(v) + PlaceBytes(p, s, t)) == h + ValueBytes(v) + PlaceBytes(p, s, t);
  }

  lemma ChangeLayout(h: seq<Byte>, o: seq<Byte>, n: seq<Byte>, p: int, s: int, t: seq<Byte>)
    requires |h| == 24 && ValidValue(o) && ValidValue(n) && Int32(p) && Int32(s)
    ensures var bs := h + (ValueBytes(o) + (ValueBytes(n) + PlaceBytes(p, s, t)));
            ValueStands(bs, 24, o) && ValueStands(bs, 28 + |o|, n) && PlaceStands(bs, 32 + |o| + |n|, p, s, t)
  {
    hide PlaceBytes, ValueStands, PlaceStands, Int32Bytes;
    var place := PlaceBytes(p, s, t);
    ValueIn(h, o, ValueBytes(n) + place);
    ValueIn(h + ValueBytes(o), n, place);
    PlaceIn(h + ValueBytes(o) + ValueBytes(n), p, s, t);
    assert h + (ValueBytes(o) + (ValueBytes(n) + place)) == h + ValueBytes(o) + (ValueBytes(n) + place);
    assert h + (ValueBytes(o) + (ValueBytes(n) + place)) == h + ValueBytes(o) + ValueBytes(n) + place;
  }

  lemma ValueIn(a: seq<Byte>, v: seq<Byte>, b: seq<Byte>)
    requires ValidValue(v)
    ensures ValueStands(a + ValueBytes(v) + b, |a|, v)
  {
    hide Bytes;
    var bs := a + ValueBytes(v) + b;
    assert bs[|a|..|a| + 4] == Bytes(|v|, 4);
    WordPart(bs, |a|, |v|);
  }

  lemma PlaceIn(a: seq<Byte>, p: int, s: int, t: seq<Byte>)
    requires Int32(p) && Int32(s)
    ensures PlaceStands(a + PlaceBytes(p, s, t), |a|, p, s, t)
  {
    hide Bytes;
    var bs := a + PlaceBytes(p, s, t);
    assert bs[|a|..|a| + 4] == Bytes(Unsigned(p), 4);
    assert bs[|a| + 4..|a| + 8] == Bytes(Unsigned(s), 4);
    WordPart(bs, |a|, Unsigned(p));
    WordPart(bs, |a| + 4, Unsigned(s));
  }

  /** The codes of the record kinds. */
  lemma KindCodes(k: LogType)
    ensures KindCode(k) == match k {
              case UPDATE => 0 case INSERT => 1 case DELETE => 2 case BEGIN => 3 case COMMIT => 4 case ABORT => 5
              case CLR_UPDATE => 6 case CLR_INSERT => 7 case CLR_DELETE => 8
            }
    ensures KindOf(KindCode(k)) == Some(k)
  {
  }

  // ---- deserialize

  datatype Header = Header(kind: LogType, lsn: int, total: nat, tid: int, prev: int, undoNext: int)

  function ReadHeader(bs: seq<Byte>): Option<Header> {
    if |bs| < LOG_HEADER_SIZE then None
    else match KindOf(Int32Of(bs[0..4]))
      case None => None
      case Some(k) => Some(Header(k, Int32Of(bs[4..8]), Number(bs[8..12]), Int32Of(bs[12..16]), Int32Of(bs[16..20]),
        Int32Of(bs[20..24])))
  }

  /** A value and what follows it. */
  function ReadValue(bs: seq<Byte>): Option<(seq<Byte>, seq<Byte>)> {
    if |bs| < 4 then None
    else
      var n := Int32Of(bs[..4]);
      if n < 0 || |bs| < 4 + n then None else Some((bs[4..4 + n], bs[4 + n..]))
  }

  function ReadPlace(bs: seq<Byte>): Option<(int, int, seq<Byte>)> {
    if |bs| < 16 then None
    else
      var n := Number(bs[8..16]);
      if |bs| < 16 + n then None else Some((Int32Of(bs[0..4]), Int32Of(bs[4..8]), bs[16..16 + n]))
  }

  function ReadBody(k: LogType, bs: seq<Byte>): Option<Body> {
    if HasRow(k) then
      match ReadValue(bs)
      case None => None
      case Some((v, rest)) => (match ReadPlace(rest) case None => None case Some((p, s, t)) => Some(Row(v, p, s, t)))
    else if HasChange(k) then
      match ReadValue(bs)
      case None => None
      case Some((o, rest)) =>
        (match ReadValue(rest)
         case None => None
         case Some((n, rest2)) => (match ReadPlace(rest2) case None => None case Some((p, s, t)) => Some(Change(o, n,
           p, s, t))))
    else Some(NoBody)
  }

  function Deserialize(bs: seq<Byte>): Option<LogRecord> {
    match ReadHeader(bs)
    case None => None
    case Some(h) =>
      match ReadBody(h.kind, bs[LOG_HEADER_SIZE..])
      case None => None
      case Some(b) => Some(LogRecord(h.kind, h.lsn, h.tid, h.prev, h.undoNext, b))
  }

  // ---- the round trip

  lemma ReadValueBack(v: seq<Byte>, rest: seq<Byte>)
    requires ValidValue(v)
    ensures ReadValue(ValueBytes(v) + rest) == Some((v, rest))
  {
    var bs := ValueBytes(v) + rest;
    Int32RoundTrip(|v|);
    assert bs[..4] == Int32Bytes(|v|) && bs[4..4 + |v|] == v && bs[4 + |v|..] == rest;
  }

  lemma ReadPlaceBack(p: int, s: int, t: seq<Byte>, rest: seq<Byte>)
    requires Int32(p) && Int32(s) && |t| < 0x1_0000_0000_0000_0000
    ensures ReadPlace(PlaceBytes(p, s, t) + rest) == Some((p, s, t))
  {
    var bs := PlaceBytes(p, s, t) + rest;
    Int32RoundTrip(p);
    Int32RoundTrip(s);
    Pow256s();
    NumberOfBytes(|t|, 8);
    assert bs[0..4] == Int32Bytes(p) && bs[4..8] == Int32Bytes(s) && bs[8..16] == Bytes(|t|, 8)
           && bs[16..16 + |t|] == t;
  }

  lemma ReadBodyBack(k: LogType, b: Body, rest: seq<Byte>)
    requires ValidBody(b) && b.Row? == HasRow(k) && b.Change? == HasChange(k)
    ensures ReadBody(k, BodyBytes(b) + rest) == Some(b)
  {
    hide ValueBytes, PlaceBytes, ReadValue, ReadPlace;
    match b
    case NoBody =>
    case Row(v, p, s, t) =>
      var place := PlaceBytes(p, s, t);
      assert BodyBytes(b) + rest == ValueBytes(v) + (place + rest);
      ReadValueBack(v, place + rest);
      ReadPlaceBack(p, s, t, rest);
    case Change(o, n, p, s, t) =>
      var place := PlaceBytes(p, s, t);
      assert BodyBytes(b) + rest == ValueBytes(o) + (ValueBytes(n) + (place + rest));
      ReadValueBack(o, ValueBytes(n) + (place + rest));
      ReadValueBack(n, place + rest);
      ReadPlaceBack(p, s, t, rest);
  }

  lemma ReadHeaderBack(r: LogRecord, rest: seq<Byte>)
    requires ValidRecord(r)
    ensures ReadHeader(HeaderBytes(r) + rest) == Some(Header(r.kind, r.lsn, TotalLength(r), r.tid, r.prev, r.undoNext))
  {
    hide HeaderBytes, Bytes, Int32Bytes, Int32Of, Number;
    HeaderParts(r, rest);
    Int32RoundTrip(KindCode(r.kind));
    Int32RoundTrip(r.lsn);
    Int32RoundTrip(r.tid);
    Int32RoundTrip(r.prev);
    Int32RoundTrip(r.undoNext);
    Pow256s();
    NumberOfBytes(TotalLength(r), 4);
  }

  /** Reading back what was written, whatever follows it. */
  lemma RoundTrip(r: LogRecord, rest: seq<Byte>)
    requires ValidRecord(r)
    ensures Deserialize(Serialize(r) + rest) == Some(r)
  {
    hide Serialize, HeaderBytes, BodyBytes, ReadHeader, ReadBody, ValidRecord;
    var bs := Serialize(r) + rest;
    RecordParts(r);
    Parts(r, rest);
    ReadHeaderBack(r, BodyBytes(r.body) + rest);
    assert bs[LOG_HEADER_SIZE..] == BodyBytes(r.body) + rest;
    ReadBodyBack(r.kind, r.body, rest);
  }

  // ---- whole logs

  ghost predicate ValidLog(rs: seq<LogRecord>) {
    forall i :: 0 <= i < |rs| ==> ValidRecord(rs[i])
  }

  function LogBytes(rs: seq<LogRecord>): seq<Byte>
    requires ValidLog(rs)
  {
    if rs == [] then [] else LogBytes(rs[..|rs| - 1]) + Serialize(rs[|rs| - 1])
  }

  function Offset(rs: seq<LogRecord>, i: nat): nat
    requires i <= |rs|
  {
    if i == 0 then 0 else Offset(rs, i - 1) + TotalLength(rs[i - 1])
  }

  lemma {:induction false} OffsetLength(rs: seq<LogRecord>, i: nat)
    requires ValidLog(rs) && i <= |rs|
    ensures |LogBytes(rs[..i])| == Offset(rs, i)
  {
    hide Serialize, TotalLength, ValidRecord;
    if i == 0 {
    } else {
      OffsetLength(rs, i - 1);
      assert rs[..i][..i - 1] == rs[..i - 1];
    }
  }

  lemma {:induction false} LogPrefix(rs: seq<LogRecord>, i: nat)
    requires ValidLog(rs) && i <= |rs|
    ensures |LogBytes(rs)| >= Offset(rs, i) && LogBytes(rs)[..Offset(rs, i)] == LogBytes(rs[..i])
  {
    hide Serialize, TotalLength, ValidRecord;
    if i == |rs| {
      OffsetLength(rs, i);
      assert rs[..i] == rs;
    } else {
      var init := rs[..|rs| - 1];
      LogPrefix(init, i);
      assert init[..i] == rs[..i];
      OffsetPrefix(rs, |rs| - 1, i);
    }
  }

  lemma {:induction false} OffsetPrefix(rs: seq<LogRecord>, n: nat, i: nat)
    requires i <= n <= |rs|
    ensures Offset(rs[..n], i) == Offset(rs, i)
  {
    if i == 0 {
    } else {
      OffsetPrefix(rs, n, i - 1);
    }
  }

  /** At its offset a log holds the bytes of its record. */
  lemma RecordAt(rs: seq<LogRecord>, i: nat)
    requires ValidLog(rs) && i < |rs|
    ensures Offset(rs, i) + TotalLength(rs[i]) == Offset(rs, i + 1) <= |LogBytes(rs)|
    ensures LogBytes(rs)[Offset(rs, i)..] == Serialize(rs[i]) + LogBytes(rs)[Offset(rs, i + 1)..]
    ensures LogBytes(rs)[Offset(rs, i)..Offset(rs, i + 1)] == Serialize(rs[i])
  {
    hide Serialize, TotalLength, ValidRecord;
    LogPrefix(rs, i);
    LogPrefix(rs, i + 1);
    OffsetLength(rs, i);
    var log, a, b := LogBytes(rs), Offset(rs, i), Offset(rs, i + 1);
    assert rs[..i + 1][..i] == rs[..i];
    MiddlePart(log, a, b, LogBytes(rs[..i]), Serialize(rs[i]));
  }

  lemma MiddlePart(log: seq<Byte>, a: nat, b: nat, x: seq<Byte>, y: seq<Byte>)
    requires a <= b <= |log| && log[..b] == x + y && |x| == a
    ensures log[a..b] == y && log[a..] == y + log[b..]
  {
    assert log[a..b] == log[..b][a..];
    assert log[a..] == log[a..b] + log[b..];
  }

  /** Recovery reads the records of a log one after the other, by their lengths. */
  lemma ReadAt(rs: seq<LogRecord>, i: nat)
    requires ValidLog(rs) && i < |rs|
    ensures Offset(rs, i) + TotalLength(rs[i]) == Offset(rs, i + 1) <= |LogBytes(rs)|
    ensures ReadHeader(LogBytes(rs)[Offset(rs, i)..])
         == Some(Header(rs[i].kind, rs[i].lsn, TotalLength(rs[i]), rs[i].tid, rs[i].prev, rs[i].undoNext))
    ensures Deserialize(LogBytes(rs)[Offset(rs, i)..Offset(rs, i + 1)]) == Some(rs[i])
  {
    hide Serialize, HeaderBytes, BodyBytes, ReadHeader, Deserialize, LogBytes, Offset;
    RecordAt(rs, i);
    var rest := LogBytes(rs)[Offset(rs, i + 1)..];
    Parts(rs[i], rest);
    ReadHeaderBack(rs[i], BodyBytes(rs[i].body) + rest);
    RoundTrip(rs[i], []);
    assert Serialize(rs[i]) + [] == Serialize(rs[i]);
  }

  lemma RecordParts(r: LogRecord)
    requires ValidRecord(r)
    ensures ValidBody(r.body) && r.body.Row? == HasRow(r.kind) && r.body.Change? == HasChange(r.kind)
  {
  }

  lemma Parts(r: LogRecord, rest: seq<Byte>)
    requires ValidRecord(r)
    ensures Serialize(r) + rest == HeaderBytes(r) + (BodyBytes(r.body) + rest)
  {
    hide HeaderBytes, BodyBytes;
  }
}
