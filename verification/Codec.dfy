/** Byte formats of values, rows and keys, with the stream semantics of the readers. */
module Codec {
  import opened Values

  type Bytes = seq<Byte>

  datatype Result<+T> = Ok(value: T) | Err(error: Error)
  datatype Error = UnknownTag | WidthMismatch

  // ---- Little-endian integers ----

  function Pow256(k: nat): (p: nat)
    ensures p > 0
  {
    if k == 0 then 1 else 256 * Pow256(k - 1)
  }

  lemma Pow256Values()
    ensures Pow256(1) == 0x100 && Pow256(2) == 0x1_0000 && Pow256(4) == 0x1_0000_0000
    ensures Pow256(8) == 0x1_0000_0000_0000_0000
  {
    assert Pow256(1) == 0x100 && Pow256(2) == 0x1_0000;
    assert Pow256(3) == 0x100_0000 && Pow256(4) == 0x1_0000_0000;
    assert Pow256(5) == 0x100_0000_0000 && Pow256(6) == 0x1_0000_0000_0000;
  }

  /** The low `k` bytes of `n`, least significant first. */
  function Le(n: nat, k: nat): (bs: Bytes)
    ensures |bs| == k
  {
    if k == 0 then [] else [(n % 256) as Byte] + Le(n / 256, k - 1)
  }

  function FromLe(bs: Bytes): nat {
    if bs == [] then 0 else bs[0] as nat + 256 * FromLe(bs[1..])
  }

  lemma {:induction false} LeRoundTrip(n: nat, k: nat)
    requires n < Pow256(k)
    ensures FromLe(Le(n, k)) == n
  {
    if k > 0 {
      LeRoundTrip(n / 256, k - 1);
      assert Le(n, k)[1..] == Le(n / 256, k - 1);
    }
  }

  // The widths the formats use.

  lemma RoundTrip16(n: nat)
    requires n < 0x1_0000
    ensures FromLe(Le(n, 2)) == n
  {
    Pow256Values();
    LeRoundTrip(n, 2);
  }

  lemma RoundTrip32(n: nat)
    requires n < 0x1_0000_0000
    ensures FromLe(Le(n, 4)) == n
  {
    Pow256Values();
    LeRoundTrip(n, 4);
  }

  lemma RoundTrip64(n: nat)
    requires n < 0x1_0000_0000_0000_0000
    ensures FromLe(Le(n, 8)) == n
  {
    Pow256Values();
    LeRoundTrip(n, 8);
  }

  /** Bitwise exclusive or. */
  function Xor(a: nat, b: nat): nat {
    if a == 0 then b else if b == 0 then a
    else (if a % 2 == b % 2 then 0 else 1) + 2 * Xor(a / 2, b / 2)
  }

  /** Two's complement of a signed 64-bit integer. */
  function Signed(n: nat): int {
    if n < 0x8000_0000_0000_0000 then n else n - 0x1_0000_0000_0000_0000
  }

  function Unsigned(i: int): nat {
    i % 0x1_0000_0000_0000_0000
  }

  // ---- Reading from a stream: missing bytes read as zero ----

  function Take(bs: Bytes, n: nat): (r: Bytes)
    ensures |r| == n
  {
    if |bs| >= n then bs[..n] else bs + seq(n - |bs|, _ => 0)
  }

  function Drop(bs: Bytes, n: nat): Bytes {
    if |bs| >= n then bs[n..] else []
  }

  lemma TakeDropPrefix(p: Bytes, rest: Bytes)
    ensures Take(p + rest, |p|) == p && Drop(p + rest, |p|) == rest
  {
  }

  // ---- Values ----

  /** A value the storage layer can hold: a 64-bit integer or a text whose length fits 32 bits. */
  predicate Storable(v: Value) {
    match v
    case Null => true
    case Int(i) => -0x8000_0000_0000_0000 <= i < 0x8000_0000_0000_0000
    case Text(t) => |t| < 0x1_0000_0000
  }

  /** `write_value`: a tag byte, then the content. */
  function EncodeValue(v: Value): Bytes {
    match v
    case Null => [0]
    case Int(i) => [1] + Le(Unsigned(i), 8)
    case Text(t) => [2] + Le(|t| % 0x1_0000_0000, 4) + t
  }

  /** `read_value`: the value read and the rest of the stream. */
  function DecodeValue(bs: Bytes): Result<(Value, Bytes)> {
    var tag, body := Take(bs, 1)[0], Drop(bs, 1);
    if tag == 0 then Ok((Null, body))
    else if tag == 1 then Ok((Int(Signed(FromLe(Take(body, 8)))), Drop(body, 8)))
    else if tag == 2 then
      var n := FromLe(Take(body, 4));
      Ok((Text(Take(Drop(body, 4), n)), Drop(Drop(body, 4), n)))
    else Err(UnknownTag)
  }

  /** What was written is read back, and reading stops exactly where writing stopped. */
  lemma ValueRoundTrip(v: Value, rest: Bytes)
    requires Storable(v)
    ensures DecodeValue(EncodeValue(v) + rest) == Ok((v, rest))
  {
    match v
    case Null => TakeDropPrefix([0], rest);
    case Int(i) => IntRoundTrip(i, rest);
    case Text(t) => TextRoundTrip(t, rest);
  }

  lemma IntRoundTrip(i: int, rest: Bytes)
    requires Storable(Int(i))
    ensures DecodeValue(EncodeValue(Int(i)) + rest) == Ok((Int(i), rest))
  {
    var n := Le(Unsigned(i), 8);
    assert EncodeValue(Int(i)) + rest == [1] + (n + rest);
    TakeDropPrefix([1], n + rest);
    TakeDropPrefix(n, rest);
    RoundTrip64(Unsigned(i));
  }

  lemma TextRoundTrip(t: Bytes, rest: Bytes)
    requires Storable(Text(t))
    ensures DecodeValue(EncodeValue(Text(t)) + rest) == Ok((Text(t), rest))
  {
    var n := Le(|t| % 0x1_0000_0000, 4);
    SmallMod(|t|);
    RoundTrip32(|t|);
    Regroup4([2], n, t, rest);
    DecodeTextParts([2] + (n + (t + rest)), n, t, rest);
  }

  /** Helper: a length that fits is not truncated. */
  lemma SmallMod(n: nat)
    requires n < 0x1_0000_0000
    ensures n % 0x1_0000_0000 == n
  {
  }

  lemma Regroup4(a: Bytes, b: Bytes, c: Bytes, d: Bytes)
    ensures a + b + c + d == a + (b + (c + d))
  {
  }

  lemma DecodeTextParts(bs: Bytes, n: Bytes, t: Bytes, rest: Bytes)
    requires bs == [2] + (n + (t + rest)) && |n| == 4 && FromLe(n) == |t|
    ensures DecodeValue(bs) == Ok((Text(t), rest))
  {
    TakeDropPrefix([2], n + (t + rest));
    TakeDropPrefix(n, t + rest);
    TakeDropPrefix(t, rest);
  }

  /** The bytes on disk: tags 0, 1 and 2, numbers with their lowest byte first, a length of four bytes before a text. */
  lemma ValueLayout(i: int, t: Bytes)
    ensures EncodeValue(Null) == [0]
    ensures |EncodeValue(Int(i))| == 9 && EncodeValue(Int(i))[..2] == [1, (i % 256) as Byte]
    ensures |EncodeValue(Text(t))| == 5 + |t| && EncodeValue(Text(t))[..2] == [2, (|t| % 256) as Byte] && EncodeValue(Text(t))[5..] == t
  {
    LowByte(i);
    LowByte(|t|);
    TextLayout(t, Le(|t| % 0x1_0000_0000, 4));
    IntLayout(Le(Unsigned(i), 8));
  }

  lemma LowByte(i: int)
    ensures i % 0x1_0000_0000_0000_0000 % 256 == i % 256 && i % 0x1_0000_0000 % 256 == i % 256
  {
    var r, s := i % 0x1_0000_0000_0000_0000, i % 0x1_0000_0000;
    Remainder(i, 0x100_0000_0000_0000 * (i / 0x1_0000_0000_0000_0000) + r / 256, r % 256);
    Remainder(i, 0x100_0000 * (i / 0x1_0000_0000) + s / 256, s % 256);
  }

  lemma Remainder(i: int, q: int, r: int)
    requires i == 256 * q + r && 0 <= r < 256
    ensures i % 256 == r
  {
  }

  lemma IntLayout(number: Bytes)
    requires |number| == 8
    ensures |[1] + number| == 9 && ([1] + number)[..2] == [1, number[0]]
  {
  }

  lemma TextLayout(t: Bytes, length: Bytes)
    requires |length| == 4
    ensures |[2] + length + t| == 5 + |t| && ([2] + length + t)[..2] == [2, length[0]] && ([2] + length + t)[5..] == t
  {
  }

  /** Encodings are self-delimiting: equal byte strings split in only one way. */
  lemma ValuePrefixFree(v: Value, w: Value, x: Bytes, y: Bytes)
    requires Storable(v) && Storable(w)
    requires EncodeValue(v) + x == EncodeValue(w) + y
    ensures v == w && x == y
  {
    ValueRoundTrip(v, x);
    ValueRoundTrip(w, y);
  }

  // ---- Keys ----

  /** `decode_key` as its callers use it: an empty byte string is the NULL key. */
  function DecodeKey(bs: Bytes): Result<Value> {
    if bs == [] then Ok(Null)
    else match DecodeValue(bs)
      case Ok(p) => Ok(p.0)
      case Err(e) => Err(e)
  }

  lemma KeyRoundTrip(v: Value)
    requires Storable(v)
    ensures DecodeKey(EncodeValue(v)) == Ok(v)
  {
    ValueRoundTrip(v, []);
    assert EncodeValue(v) + [] == EncodeValue(v);
  }

  function Concat(vs: seq<Value>): Bytes {
    if vs == [] then [] else EncodeValue(vs[0]) + Concat(vs[1..])
  }

  /** `extract_key`: the first column, or the joined encodings of two or more key columns. */
  function ExtractKey(row: Row, isKey: seq<bool>): Value {
    var cols := KeyColumns(row, isKey, 0);
    if |cols| < 2 then (if row == [] then Null else row[0]) else Text(Concat(cols))
  }

  function KeyColumns(row: Row, isKey: seq<bool>, i: nat): (cols: seq<Value>)
    ensures (forall v | v in row :: Storable(v)) ==> forall v | v in cols :: Storable(v)
    decreases |isKey| - i
  {
    if i >= |isKey| then []
    else (if isKey[i] then [if i < |row| then row[i] else Null] else []) + KeyColumns(row, isKey, i + 1)
  }

  lemma {:induction false} ConcatInjective(a: seq<Value>, b: seq<Value>)
    requires |a| == |b| && Concat(a) == Concat(b)
    requires (forall v | v in a :: Storable(v)) && (forall v | v in b :: Storable(v))
    ensures a == b
  {
    if a != [] {
      ValuePrefixFree(a[0], b[0], Concat(a[1..]), Concat(b[1..]));
      ConcatInjective(a[1..], b[1..]);
      assert a == [a[0]] + a[1..] && b == [b[0]] + b[1..];
    }
  }

  /** The value of a column; a missing one is NULL. */
  function ColumnAt(row: Row, i: nat): Value {
    if i < |row| then row[i] else Null
  }

  function KeyCount(isKey: seq<bool>, i: nat): nat
    decreases |isKey| - i
  {
    if i >= |isKey| then 0 else (if isKey[i] then 1 else 0) + KeyCount(isKey, i + 1)
  }

  ghost predicate AgreeOnKeys(r: Row, s: Row, isKey: seq<bool>, i: nat) {
    forall k | i <= k < |isKey| && isKey[k] :: ColumnAt(r, k) == ColumnAt(s, k)
  }

  lemma {:induction false} KeyColumnsAgree(r: Row, s: Row, isKey: seq<bool>, i: nat)
    ensures |KeyColumns(r, isKey, i)| == KeyCount(isKey, i)
    ensures KeyColumns(r, isKey, i) == KeyColumns(s, isKey, i) <==> AgreeOnKeys(r, s, isKey, i)
    decreases |isKey| - i
  {
    if i < |isKey| {
      KeyColumnsAgree(r, s, isKey, i + 1);
      KeyColumnsAgree(s, r, isKey, i + 1);
      var a, b := KeyColumns(r, isKey, i), KeyColumns(s, isKey, i);
      if isKey[i] {
        assert a[0] == ColumnAt(r, i) && a[1..] == KeyColumns(r, isKey, i + 1);
        assert b[0] == ColumnAt(s, i) && b[1..] == KeyColumns(s, isKey, i + 1);
        assert a == [a[0]] + a[1..] && b == [b[0]] + b[1..];
      } else {
        assert a == KeyColumns(r, isKey, i + 1) && b == KeyColumns(s, isKey, i + 1);
      }
      assert AgreeOnKeys(r, s, isKey, i) <==> AgreeOnKeys(r, s, isKey, i + 1) && (isKey[i] ==> ColumnAt(r, i) == ColumnAt(s, i));
    }
  }

  /** With two or more key columns, rows share a key exactly when they agree on every key column. */
  lemma CompositeKeyIdentifies(r: Row, s: Row, isKey: seq<bool>)
    requires (forall v | v in r :: Storable(v)) && (forall v | v in s :: Storable(v)) && KeyCount(isKey, 0) >= 2
    ensures ExtractKey(r, isKey) == ExtractKey(s, isKey) <==> AgreeOnKeys(r, s, isKey, 0)
  {
    KeyColumnsAgree(r, s, isKey, 0);
    KeyColumnsAgree(s, r, isKey, 0);
    if ExtractKey(r, isKey) == ExtractKey(s, isKey) {
      ConcatInjective(KeyColumns(r, isKey, 0), KeyColumns(s, isKey, 0));
    }
  }

  /** With fewer, the key is the first column, whichever column is marked; an empty row has the key NULL. */
  lemma FirstColumnIdentifies(r: Row, s: Row, isKey: seq<bool>)
    requires KeyCount(isKey, 0) < 2
    ensures ExtractKey(r, isKey) == ColumnAt(r, 0)
    ensures ExtractKey(r, isKey) == ExtractKey(s, isKey) <==> ColumnAt(r, 0) == ColumnAt(s, 0)
  {
    KeyColumnsAgree(r, s, isKey, 0);
    KeyColumnsAgree(s, r, isKey, 0);
  }

  // ---- Rows ----

  function EncodeRow(r: Row): Bytes {
    Le(|r| % 0x1_0000_0000, 4) + Concat(r)
  }

  function DecodeValues(bs: Bytes, n: nat): Result<Row>
    decreases n
  {
    if n == 0 then Ok([])
    else match DecodeValue(bs)
      case Err(e) => Err(e)
      case Ok(p) =>
        match DecodeValues(p.1, n - 1)
        case Err(e) => Err(e)
        case Ok(vs) => Ok([p.0] + vs)
  }

  /** `decode_row`: refuses a record whose width differs from the schema. */
  function DecodeRow(bs: Bytes, columns: nat): Result<Row> {
    if FromLe(Take(bs, 4)) != columns then Err(WidthMismatch) else DecodeValues(Drop(bs, 4), columns)
  }

  lemma {:induction false} ValuesRoundTrip(vs: seq<Value>)
    requires forall v | v in vs :: Storable(v)
    ensures DecodeValues(Concat(vs), |vs|) == Ok(vs)
  {
    if vs != [] {
      ValueRoundTrip(vs[0], Concat(vs[1..]));
      ValuesRoundTrip(vs[1..]);
      DecodeNext(Concat(vs), |vs|, vs[0], Concat(vs[1..]), vs[1..]);
      assert vs == [vs[0]] + vs[1..];
    }
  }

  lemma DecodeNext(bs: Bytes, n: nat, v: Value, rest: Bytes, vs: seq<Value>)
    requires n > 0 && DecodeValue(bs) == Ok((v, rest)) && DecodeValues(rest, n - 1) == Ok(vs)
    ensures DecodeValues(bs, n) == Ok([v] + vs)
  {
  }

  lemma DecodeRowParts(head: Bytes, body: Bytes, n: nat, columns: nat)
    requires |head| == 4 && FromLe(head) == n
    ensures DecodeRow(head + body, columns) == if n != columns then Err(WidthMismatch) else DecodeValues(body, columns)
  {
    TakeDropPrefix(head, body);
  }

  /** A row survives the log, the table files and the replication stream. */
  lemma RowRoundTrip(r: Row, columns: nat)
    requires |r| < 0x1_0000_0000 && forall v | v in r :: Storable(v)
    ensures DecodeRow(EncodeRow(r), columns) == if columns == |r| then Ok(r) else Err(WidthMismatch)
  {
    SmallMod(|r|);
    RoundTrip32(|r|);
    DecodeRowParts(Le(|r|, 4), Concat(r), |r|, columns);
    ValuesRoundTrip(r);
  }

  // ---- Keys of multi-column indexes ----

  /** `encode_composite` uses its own tags; the result is looked up for equality only. */
  function EncodePart(v: Value): Bytes {
    match v
    case Null => [0]
    case Int(i) => [1] + Le(Unsigned(i), 8)
    case Text(t) => [3] + Le(|t| % 0x1_0000_0000, 4) + t
  }

  function EncodeComposite(vs: seq<Value>): Bytes {
    if vs == [] then [] else EncodePart(vs[0]) + EncodeComposite(vs[1..])
  }

  /** No two column tuples of the same width collide in a composite index. */
  lemma {:induction false} CompositeIndexInjective(a: seq<Value>, b: seq<Value>)
    requires |a| == |b| && EncodeComposite(a) == EncodeComposite(b)
    requires (forall v | v in a :: Storable(v)) && (forall v | v in b :: Storable(v))
    ensures a == b
  {
    if a != [] {
      PartPrefixFree(a[0], b[0], EncodeComposite(a[1..]), EncodeComposite(b[1..]));
      CompositeIndexInjective(a[1..], b[1..]);
      assert a == [a[0]] + a[1..] && b == [b[0]] + b[1..];
    }
  }

  lemma PartPrefixFree(v: Value, w: Value, x: Bytes, y: Bytes)
    requires Storable(v) && Storable(w) && EncodePart(v) + x == EncodePart(w) + y
    ensures v == w && x == y
  {
    SameButTag(v, x);
    SameButTag(w, y);
    ValuePrefixFree(v, w, x, y);
  }

  /** Helper: the two formats differ only in the tag, one-to-one. */
  lemma SameButTag(v: Value, x: Bytes)
    ensures (EncodePart(v) + x)[0] == (if v.Text? then 3 else EncodeValue(v)[0])
    ensures EncodeValue(v) + x == [EncodeValue(v)[0]] + (EncodePart(v) + x)[1..]
    ensures EncodeValue(v)[0] == if v.Null? then 0 else if v.Int? then 1 else 2
  {
    match v
    case Null => Retagged(0, 0, [], x);
    case Int(i) => Retagged(1, 1, Le(Unsigned(i), 8), x);
    case Text(t) =>
      var n := Le(|t| % 0x1_0000_0000, 4);
      assert [2] + n + t == [2] + (n + t) && [3] + n + t == [3] + (n + t);
      Retagged(2, 3, n + t, x);
  }

  lemma Retagged(a: Byte, b: Byte, content: Bytes, x: Bytes)
    ensures ([b] + content + x)[0] == b && ([a] + content)[0] == a
    ensures [a] + content + x == [a] + ([b] + content + x)[1..]
  {
    assert ([b] + content + x)[1..] == content + x;
  }
}
