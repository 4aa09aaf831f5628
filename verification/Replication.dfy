/** The replication stream: record format, framing, and the writes that records stand for. */
module Replication {
  import opened Values
  import opened Versions
  import opened Codec

  datatype Column = Column(name: Bytes, kind: nat, notNull: bool, primaryKey: bool)

  datatype Record =
    | ApplyRow(table: Bytes, ts: nat, wire: Bytes)
    | ApplyDelete(table: Bytes, ts: nat, wire: Bytes)
    | Commit(ts: nat)
    | CreateTable(table: Bytes, columns: seq<Column>)
    | DropTable(table: Bytes)

  const MAX_FRAME: nat := 64 * 1024 * 1024

  // ---- Schemas ----

  /** One type byte: the kind in the low six bits, NOT NULL in bit 6, PRIMARY KEY in bit 7. */
  function TypeByte(c: Column): Byte {
    (c.kind % 64 + (if c.notNull then 64 else 0) + (if c.primaryKey then 128 else 0)) as Byte
  }

  function EncodeColumn(c: Column): Bytes {
    Le(|c.name| % 0x1_0000, 2) + c.name + [TypeByte(c)]
  }

  function EncodeColumns(cs: seq<Column>): Bytes {
    if cs == [] then [] else EncodeColumn(cs[0]) + EncodeColumns(cs[1..])
  }

  function EncodeSchema(cs: seq<Column>): Bytes {
    Le(|cs| % 0x1_0000_0000, 4) + EncodeColumns(cs)
  }

  /** An unknown kind reads as the NULL kind. */
  function DecodeTypeByte(name: Bytes, b: nat): Column {
    Column(name, if b % 64 <= 6 then b % 64 else 0, b / 64 % 2 == 1, b / 128 % 2 == 1)
  }

  function DecodeColumns(bs: Bytes, n: nat): seq<Column>
    decreases n
  {
    if n == 0 then []
    else
      var len := FromLe(Take(bs, 2));
      var body := Drop(bs, 2);
      var rest := Drop(body, len);
      [DecodeTypeByte(Take(body, len), Take(rest, 1)[0] as nat)] + DecodeColumns(Drop(rest, 1), n - 1)
  }

  function DecodeSchema(bs: Bytes): seq<Column> {
    DecodeColumns(Drop(bs, 4), FromLe(Take(bs, 4)))
  }

  predicate GoodColumn(c: Column) {
    |c.name| < 0x1_0000 && c.kind <= 6
  }

  lemma TypeByteRoundTrip(c: Column)
    requires c.kind <= 6
    ensures DecodeTypeByte(c.name, TypeByte(c) as nat) == c
  {
  }

  /** Helper: regrouping of the parts of a byte string. */
  lemma Regroup(a: Bytes, b: Bytes, c: Bytes, d: Bytes)
    ensures a + b + c + d == a + (b + (c + d))
  {
  }

  /** Helper: one column at the front. */
  lemma ColumnParts(name: Bytes, b: Byte, rest: Bytes, n: nat)
    requires |name| < 0x1_0000 && n > 0
    ensures DecodeColumns(Le(|name|, 2) + (name + ([b] + rest)), n)
         == [DecodeTypeByte(name, b as nat)] + DecodeColumns(rest, n - 1)
  {
    var len := Le(|name|, 2);
    TakeDropPrefix(len, name + ([b] + rest));
    RoundTrip16(|name|);
    TakeDropPrefix(name, [b] + rest);
    TakeDropPrefix([b], rest);
  }

  lemma ColumnRoundTrip(c: Column, rest: Bytes, n: nat)
    requires GoodColumn(c) && n > 0
    ensures DecodeColumns(EncodeColumn(c) + rest, n) == [c] + DecodeColumns(rest, n - 1)
  {
    ColumnBytes(c, rest);
    ColumnParts(c.name, TypeByte(c), rest, n);
    TypeByteRoundTrip(c);
  }

  lemma ColumnBytes(c: Column, rest: Bytes)
    requires GoodColumn(c)
    ensures EncodeColumn(c) + rest == Le(|c.name|, 2) + (c.name + ([TypeByte(c)] + rest))
  {
    Regroup(Le(|c.name|, 2), c.name, [TypeByte(c)], rest);
  }

  lemma {:induction false} ColumnsRoundTrip(cs: seq<Column>)
    requires forall c | c in cs :: GoodColumn(c)
    ensures DecodeColumns(EncodeColumns(cs), |cs|) == cs
  {
    if cs != [] {
      ColumnRoundTrip(cs[0], EncodeColumns(cs[1..]), |cs|);
      ColumnsRoundTrip(cs[1..]);
      assert cs == [cs[0]] + cs[1..];
    }
  }

  lemma SchemaParts(n: nat, cols: Bytes)
    requires n < 0x1_0000_0000
    ensures DecodeSchema(Le(n, 4) + cols) == DecodeColumns(cols, n)
  {
    RoundTrip32(n);
    TakeDropPrefix(Le(n, 4), cols);
  }

  lemma SchemaRoundTrip(cs: seq<Column>)
    requires |cs| < 0x1_0000_0000 && forall c | c in cs :: GoodColumn(c)
    ensures DecodeSchema(EncodeSchema(cs)) == cs
  {
    SmallMod(|cs|);
    assert EncodeSchema(cs) == Le(|cs|, 4) + EncodeColumns(cs);
    SchemaParts(|cs|, EncodeColumns(cs));
    ColumnsRoundTrip(cs);
  }

  // ---- Records ----

  /** A table name behind one length byte, as the serializer casts it. */
  function EncodeName(name: Bytes): Bytes {
    [(|name| % 256) as Byte] + name
  }

  function EncodeBlob(b: Bytes): Bytes {
    Le(|b| % 0x1_0000_0000, 4) + b
  }

  function Serialize(r: Record): Bytes {
    match r
    case ApplyRow(t, ts, w) => [1] + EncodeName(t) + Le(ts, 8) + EncodeBlob(w)
    case ApplyDelete(t, ts, w) => [2] + EncodeName(t) + Le(ts, 8) + EncodeBlob(w)
    case Commit(ts) => [3] + Le(ts, 8)
    case CreateTable(t, cs) => [4] + EncodeName(t) + EncodeBlob(EncodeSchema(cs))
    case DropTable(t) => [5] + EncodeName(t)
  }

  /** The first byte tells the kind of a record. */
  lemma RecordLayout(r: Record)
    ensures Serialize(r) != []
    ensures Serialize(r)[0] == 1 <==> r.ApplyRow?
    ensures Serialize(r)[0] == 2 <==> r.ApplyDelete?
    ensures Serialize(r)[0] == 3 <==> r.Commit?
    ensures Serialize(r)[0] == 4 <==> r.CreateTable?
    ensures Serialize(r)[0] == 5 <==> r.DropTable?
  {
  }

  /** `read_bytes`: the next bytes and the rest, or nothing when too few are left. */
  function Split(bs: Bytes, n: nat): Option<(Bytes, Bytes)> {
    if |bs| < n then None else Some((bs[..n], bs[n..]))
  }

  function ReadName(bs: Bytes): Option<(Bytes, Bytes)> {
    if bs == [] then None else Split(bs[1..], bs[0] as nat)
  }

  function ReadNumber(bs: Bytes, width: nat): Option<(nat, Bytes)> {
    match Split(bs, width)
    case None => None
    case Some(p) => Some((FromLe(p.0), p.1))
  }

  function ReadBlob(bs: Bytes): Option<(Bytes, Bytes)> {
    match ReadNumber(bs, 4)
    case None => None
    case Some(n) => Split(n.1, n.0)
  }

  /** The common layout of rows and deletes. */
  function ReadChange(bs: Bytes): Option<(Bytes, nat, Bytes)> {
    match ReadName(bs)
    case None => None
    case Some(t) =>
      match ReadNumber(t.1, 8)
      case None => None
      case Some(n) =>
        match ReadBlob(n.1)
        case None => None
        case Some(b) => Some((t.0, n.0, b.0))
  }

  /** A schema without columns is refused. */
  function ReadCreate(bs: Bytes): Option<Record> {
    match ReadName(bs)
    case None => None
    case Some(t) =>
      match ReadBlob(t.1)
      case None => None
      case Some(b) => if DecodeSchema(b.0) == [] then None else Some(CreateTable(t.0, DecodeSchema(b.0)))
  }

  /** `ReplicationRecord::deserialize`: trailing bytes are ignored, short input is refused. */
  function Deserialize(bs: Bytes): Option<Record> {
    if bs == [] then None
    else
      var kind, body := bs[0], bs[1..];
      if kind == 1 || kind == 2 then
        match ReadChange(body)
        case None => None
        case Some(c) => Some(if kind == 1 then ApplyRow(c.0, c.1, c.2) else ApplyDelete(c.0, c.1, c.2))
      else if kind == 3 then
        match ReadNumber(body, 8)
        case None => None
        case Some(n) => Some(Commit(n.0))
      else if kind == 4 then ReadCreate(body)
      else if kind == 5 then
        match ReadName(body)
        case None => None
        case Some(t) => Some(DropTable(t.0))
      else None
  }

  /** Fields that fit the widths of the format; the length of the table name is not among them. */
  predicate Fits(r: Record) {
    match r
    case ApplyRow(_, ts, w) => ts < 0x1_0000_0000_0000_0000 && |w| < 0x1_0000_0000
    case ApplyDelete(_, ts, w) => ts < 0x1_0000_0000_0000_0000 && |w| < 0x1_0000_0000
    case Commit(ts) => ts < 0x1_0000_0000_0000_0000
    case CreateTable(_, cs) =>
      |cs| < 0x1_0000_0000 && |EncodeSchema(cs)| < 0x1_0000_0000 && (forall c | c in cs :: GoodColumn(c)) && cs != []
    case DropTable(_) => true
  }

  predicate ShortName(r: Record) {
    r.Commit? || |r.table| < 256
  }

  lemma SplitPrefix(a: Bytes, b: Bytes)
    ensures Split(a + b, |a|) == Some((a, b))
  {
  }

  lemma NameRoundTrip(name: Bytes, rest: Bytes)
    requires |name| < 256
    ensures ReadName(EncodeName(name) + rest) == Some((name, rest))
  {
    assert (EncodeName(name) + rest)[1..] == name + rest;
    SplitPrefix(name, rest);
  }

  lemma TsRoundTrip(ts: nat, rest: Bytes)
    requires ts < 0x1_0000_0000_0000_0000
    ensures ReadNumber(Le(ts, 8) + rest, 8) == Some((ts, rest))
  {
    SplitPrefix(Le(ts, 8), rest);
    RoundTrip64(ts);
  }

  lemma BlobRoundTrip(b: Bytes)
    requires |b| < 0x1_0000_0000
    ensures ReadBlob(EncodeBlob(b)) == Some((b, []))
  {
    SmallMod(|b|);
    assert EncodeBlob(b) == Le(|b|, 4) + b;
    SplitPrefix(Le(|b|, 4), b);
    RoundTrip32(|b|);
    assert b + [] == b;
    SplitPrefix(b, []);
  }

  lemma ChangeRoundTrip(t: Bytes, ts: nat, w: Bytes)
    requires |t| < 256 && ts < 0x1_0000_0000_0000_0000 && |w| < 0x1_0000_0000
    ensures ReadChange(EncodeName(t) + (Le(ts, 8) + EncodeBlob(w))) == Some((t, ts, w))
  {
    NameRoundTrip(t, Le(ts, 8) + EncodeBlob(w));
    TsRoundTrip(ts, EncodeBlob(w));
    BlobRoundTrip(w);
  }

  lemma CreateRoundTrip(t: Bytes, cs: seq<Column>)
    requires |t| < 256 && Fits(CreateTable(t, cs))
    ensures ReadCreate(EncodeName(t) + EncodeBlob(EncodeSchema(cs))) == Some(CreateTable(t, cs))
  {
    NameRoundTrip(t, EncodeBlob(EncodeSchema(cs)));
    BlobRoundTrip(EncodeSchema(cs));
    SchemaRoundTrip(cs);
  }

  /** The bytes behind the kind byte. */
  function Body(r: Record): Bytes {
    match r
    case ApplyRow(t, ts, w) => EncodeName(t) + (Le(ts, 8) + EncodeBlob(w))
    case ApplyDelete(t, ts, w) => EncodeName(t) + (Le(ts, 8) + EncodeBlob(w))
    case Commit(ts) => Le(ts, 8) + []
    case CreateTable(t, cs) => EncodeName(t) + EncodeBlob(EncodeSchema(cs))
    case DropTable(t) => EncodeName(t) + []
  }

  function Kind(r: Record): Byte {
    match r
    case ApplyRow(_, _, _) => 1
    case ApplyDelete(_, _, _) => 2
    case Commit(_) => 3
    case CreateTable(_, _) => 4
    case DropTable(_) => 5
  }

  lemma KindAndBody(r: Record)
    ensures Serialize(r) != [] && Serialize(r)[0] == Kind(r) && Serialize(r)[1..] == Body(r)
  {
    match r
    case ApplyRow(t, ts, w) => Behind(1, EncodeName(t), Le(ts, 8), EncodeBlob(w));
    case ApplyDelete(t, ts, w) => Behind(2, EncodeName(t), Le(ts, 8), EncodeBlob(w));
    case Commit(ts) => Behind(3, Le(ts, 8), [], []);
    case CreateTable(t, cs) => Behind(4, EncodeName(t), EncodeBlob(EncodeSchema(cs)), []);
    case DropTable(t) => Behind(5, EncodeName(t), [], []);
  }

  lemma Behind(kind: Byte, a: Bytes, b: Bytes, c: Bytes)
    ensures ([kind] + a + b + c)[0] == kind && ([kind] + a + b + c)[1..] == a + (b + c)
    ensures ([kind] + a + b)[0] == kind && ([kind] + a + b)[1..] == a + b
    ensures ([kind] + a)[0] == kind && ([kind] + a)[1..] == a + []
  {
  }

  lemma ShortNameRoundTrip(r: Record)
    requires Fits(r) && ShortName(r)
    ensures Deserialize(Serialize(r)) == Some(r)
  {
    KindAndBody(r);
    match r
    case ApplyRow(t, ts, w) => ChangeRoundTrip(t, ts, w);
    case ApplyDelete(t, ts, w) => ChangeRoundTrip(t, ts, w);
    case Commit(ts) => TsRoundTrip(ts, []);
    case CreateTable(t, cs) => CreateRoundTrip(t, cs);
    case DropTable(t) => NameRoundTrip(t, []);
  }

  /** A record survives the wire exactly when its table name fits the single length byte. */
  lemma RecordRoundTripIff(r: Record)
    requires Fits(r)
    ensures Deserialize(Serialize(r)) == Some(r) <==> ShortName(r)
  {
    if ShortName(r) {
      ShortNameRoundTrip(r);
    } else {
      var got := Deserialize(Serialize(r));
      if got.Some? { NameIsCut(Serialize(r)); }
    }
  }

  /** Helper: no record read from the wire has a long name. */
  lemma NameIsCut(bs: Bytes)
    requires Deserialize(bs).Some?
    ensures ShortName(Deserialize(bs).value)
  {
  }

  // ---- Frames ----

  function Frame(r: Record): Bytes {
    Le(|Serialize(r)| % 0x1_0000_0000, 4) + Serialize(r)
  }

  function StreamOf(rs: seq<Record>): Bytes {
    if rs == [] then [] else Frame(rs[0]) + StreamOf(rs[1..])
  }

  /** The follower's loop: an empty or oversized frame drops the connection, an unreadable one is skipped. */
  function Received(bs: Bytes): seq<Record> {
    if |bs| < 4 then []
    else
      var len := FromLe(bs[..4]);
      if len == 0 || len > MAX_FRAME || |bs| - 4 < len then []
      else
        var r, more := Deserialize(bs[4..4 + len]), Received(bs[4 + len..]);
        if r.Some? then [r.value] + more else more
  }

  predicate Sendable(r: Record) {
    Fits(r) && ShortName(r) && |Serialize(r)| <= MAX_FRAME
  }

  /** Helper: where the parts of a frame lie. */
  /** An empty frame, or one of more than 64 MiB, ends the connection: nothing behind it is received. */
  lemma BadFrameEndsStream(bs: Bytes)
    requires |bs| >= 4 && (FromLe(bs[..4]) == 0 || FromLe(bs[..4]) > 67108864)
    ensures Received(bs) == []
  {
  }

  /** A frame that is no record is skipped, and the stream goes on. */
  lemma UnreadableFrameIsSkipped(payload: Bytes, rest: Bytes)
    requires 0 < |payload| <= MAX_FRAME && Deserialize(payload).None?
    ensures Received(Le(|payload|, 4) + payload + rest) == Received(rest)
  {
    RoundTrip32(|payload|);
    ReceivedFrame(payload, rest);
  }

  lemma FrameParts(head: Bytes, payload: Bytes, rest: Bytes)
    requires |head| == 4
    ensures var bs := head + payload + rest;
      && |bs| == 4 + |payload| + |rest|
      && bs[..4] == head && bs[4..4 + |payload|] == payload && bs[4 + |payload|..] == rest
  {
  }

  /** Helper: one frame of the receiving loop. */
  lemma ReceivedFrame(payload: Bytes, rest: Bytes)
    requires 0 < |payload| <= MAX_FRAME
    ensures Received(Le(|payload|, 4) + payload + rest) ==
      (if Deserialize(payload).Some? then [Deserialize(payload).value] else []) + Received(rest)
  {
    FrameParts(Le(|payload|, 4), payload, rest);
    RoundTrip32(|payload|);
  }

  lemma FrameRoundTrip(r: Record, rest: Bytes)
    requires Sendable(r)
    ensures Received(Frame(r) + rest) == [r] + Received(rest)
  {
    var p := Serialize(r);
    SmallMod(|p|);
    assert Frame(r) == Le(|p|, 4) + p;
    assert Deserialize(p) == Some(r) by { RecordRoundTripIff(r); }
    ReceivedFrame(p, rest);
  }

  /** Helper: a frame that is cut short. */
  lemma CutFrame(head: Bytes, payload: Bytes, n: nat)
    requires |head| == 4 && 4 <= n < 4 + |payload|
    ensures (head + payload)[..n][..4] == head && |(head + payload)[..n]| == n
  {
  }

  lemma TornFrame(r: Record, n: nat)
    requires Sendable(r) && n < |Frame(r)|
    ensures Received(Frame(r)[..n]) == []
  {
    var p := Serialize(r);
    SmallMod(|p|);
    assert Frame(r) == Le(|p|, 4) + p;
    if n >= 4 {
      CutFrame(Le(|p|, 4), p, n);
      RoundTrip32(|p|);
    }
  }

  /** The payload of the next frame, or nothing when the connection is dropped. */
  method NextFrame(bs: Bytes) returns (frame: Option<Bytes>)
    ensures frame.None? ==> Received(bs) == []
    ensures frame.Some? ==> 4 + |frame.value| <= |bs|
    ensures frame.Some? ==>
      Received(bs) == RecordIn(frame.value) + Received(bs[4 + |frame.value|..])
  {
    if |bs| < 4 { return None; }
    var len := FromLe(bs[..4]);
    if len == 0 || len > MAX_FRAME || |bs| - 4 < len { return None; }
    return Some(bs[4..4 + len]);
  }

  function RecordIn(payload: Bytes): seq<Record> {
    var r := Deserialize(payload);
    if r.Some? then [r.value] else []
  }

  lemma Regroup3(a: seq<Record>, b: seq<Record>, c: seq<Record>)
    ensures a + (b + c) == a + b + c
  {
  }

  /** The loop of one connection. */
  method ReceiveFrames(stream: Bytes) returns (rs: seq<Record>)
    ensures rs == Received(stream)
  {
    rs := [];
    var rest := stream;
    while true
      invariant rs + Received(rest) == Received(stream)
      decreases |rest|
    {
      var frame := NextFrame(rest);
      if frame.None? { return; }
      var next := rest[4 + |frame.value|..];
      Regroup3(rs, RecordIn(frame.value), Received(next));
      rs, rest := rs + RecordIn(frame.value), next;
    }
  }

  /** The first frame of the stream has this length. */
  predicate StartsWith(rs: seq<Record>, f: nat)
    requires rs != []
  {
    f == |Frame(rs[0])|
  }

  /** Helper: a stream that is cut in its first frame. */
  lemma TornFirst(rs: seq<Record>, n: nat, f: nat)
    requires rs != [] && Sendable(rs[0]) && StartsWith(rs, f) && n < f && n <= |StreamOf(rs)|
    ensures Received(StreamOf(rs)[..n]) == []
  {
    assert StreamOf(rs)[..n] == Frame(rs[0])[..n];
    TornFrame(rs[0], n);
  }

  /** Helper: a stream that is cut later. */
  lemma WholeFirst(rs: seq<Record>, n: nat, f: nat)
    requires rs != [] && Sendable(rs[0]) && StartsWith(rs, f) && f <= n <= f + |StreamOf(rs[1..])| == |StreamOf(rs)|
    ensures Received(StreamOf(rs)[..n]) == [rs[0]] + Received(StreamOf(rs[1..])[..n - f])
  {
    var more := StreamOf(rs[1..])[..n - f];
    assert StreamOf(rs)[..n] == Frame(rs[0]) + more;
    FrameRoundTrip(rs[0], more);
  }

  predicate IsPrefix(got: seq<Record>, rs: seq<Record>) {
    |got| <= |rs| && got == rs[..|got|]
  }

  /** A prefix of the records arrives, and all of them from a whole stream. */
  predicate Arrive(got: seq<Record>, rs: seq<Record>, whole: bool) {
    IsPrefix(got, rs) && (whole ==> |got| == |rs|)
  }

  /** Wherever the connection breaks, the follower has received a prefix of the records, unchanged. */
  lemma ReceivedIsPrefix(rs: seq<Record>, n: nat)
    requires (forall r | r in rs :: Sendable(r)) && n <= |StreamOf(rs)|
    ensures Arrive(Received(StreamOf(rs)[..n]), rs, n == |StreamOf(rs)|)
  {
    PrefixArrives(rs, n, Received(StreamOf(rs)[..n]), |StreamOf(rs)|);
  }

  lemma {:induction false} PrefixArrives(rs: seq<Record>, n: nat, got: seq<Record>, total: nat)
    requires (forall r | r in rs :: Sendable(r)) && total == |StreamOf(rs)| && n <= total
    requires got == Received(StreamOf(rs)[..n])
    ensures Arrive(got, rs, n == total)
    decreases rs
  {
    if rs == [] {
      NothingReceived(got);
    } else {
      var first, more, left, rest := FirstArrives(rs, n, got, total);
      if first {
        PrefixArrives(rs[1..], more, rest, left);
        PrefixStep(rs, got, rest, n == total);
      }
    }
  }

  lemma NothingReceived(got: seq<Record>)
    requires got == Received([])
    ensures got == []
  {
  }

  /** Helper: the first record and the others, or nothing. */
  lemma FirstArrives(rs: seq<Record>, n: nat, got: seq<Record>, total: nat)
    returns (first: bool, more: nat, left: nat, rest: seq<Record>)
    requires rs != [] && Sendable(rs[0]) && total == |StreamOf(rs)| && n <= total && got == Received(StreamOf(rs)[..n])
    ensures !first ==> got == [] && n < total
    ensures first ==> left == |StreamOf(rs[1..])| && more <= left && (n == total <==> more == left)
    ensures first ==> rest == Received(StreamOf(rs[1..])[..more]) && got == [rs[0]] + rest
  {
    var f := StreamLength(rs);
    if n < f {
      TornFirst(rs, n, f);
      return false, 0, 0, [];
    }
    WholeFirst(rs, n, f);
    return true, n - f, total - f, Received(StreamOf(rs[1..])[..n - f]);
  }

  lemma PrefixStep(rs: seq<Record>, all: seq<Record>, got: seq<Record>, whole: bool)
    requires rs != [] && all == [rs[0]] + got && Arrive(got, rs[1..], whole)
    ensures Arrive(all, rs, whole)
  {
    assert rs[..|got| + 1] == [rs[0]] + rs[1..][..|got|];
  }

  lemma StreamLength(rs: seq<Record>) returns (f: nat)
    requires rs != []
    ensures StartsWith(rs, f) && |StreamOf(rs)| == f + |StreamOf(rs[1..])|
  {
    f := |Frame(rs[0])|;
  }

  // ---- From writes to records and back ----

  /** What the primary sends for one write of a table. */
  function RecordOf(table: Bytes, v: Version): Record {
    if v.tombstone then ApplyDelete(table, v.ts, EncodeValue(v.pk)) else ApplyRow(table, v.ts, EncodeRow(v.row))
  }

  /** What the follower writes for one record; undecodable rows and other records write nothing. */
  function VersionOf(r: Record, isKey: seq<bool>): Option<Version> {
    match r
    case ApplyRow(_, ts, w) =>
      (match DecodeRow(w, |isKey|)
       case Ok(row) => Some(Version(ExtractKey(row, isKey), ts, false, row))
       case Err(_) => None)
    case ApplyDelete(_, ts, w) =>
      (match DecodeKey(w)
       case Ok(pk) => Some(Version(pk, ts, true, []))
       case Err(_) => None)
    case _ => None
  }

  /** A version as the engine writes it: the key is taken from the row, a tombstone has no row. */
  predicate Written(v: Version, isKey: seq<bool>) {
    && Storable(v.pk)
    && (v.tombstone ==> v.row == [])
    && (!v.tombstone ==> |v.row| == |isKey| < 0x1_0000_0000 && v.pk == ExtractKey(v.row, isKey)
                         && forall x | x in v.row :: Storable(x))
  }

  lemma WriteRoundTrip(table: Bytes, v: Version, isKey: seq<bool>)
    requires Written(v, isKey)
    ensures VersionOf(RecordOf(table, v), isKey) == Some(v)
  {
    if v.tombstone { KeyRoundTrip(v.pk); } else { RowRoundTrip(v.row, |isKey|); }
  }
}
