/** The write-ahead log: record format, appending, and reading back after a crash. */
module Wal {
  import opened Values
  import opened Codec

  const MAGIC: nat := 0x57414c31

  datatype Record = Record(kind: Byte, payload: Bytes)

  // ---- FNV-1a over the payload, in 32-bit arithmetic ----

  function Fnv(h: nat, p: Bytes): nat
    decreases |p|
  {
    if p == [] then h else Fnv(Xor(h, p[0] as nat) * PRIME % 0x1_0000_0000, p[1..])
  }

  function Fnv1a(p: Bytes): nat {
    Fnv(2166136261, p)
  }

  // Every round of FNV-1a can be undone, so payloads that differ in one byte have different checksums.

  const PRIME: nat := 16777619
  const INVERSE: nat := 899433627

  lemma XorCommutes(a: nat, b: nat)
    ensures Xor(a, b) == Xor(b, a)
  {
  }

  /** Exclusive or is its own inverse. */
  lemma {:induction false} XorCancel(a: nat, b: nat)
    ensures Xor(Xor(a, b), b) == a
    decreases a + b
  {
    if a == 0 {
      XorSame(b);
    } else if b != 0 {
      XorHalves(a, b, Xor(a, b));
      XorCancel(a / 2, b / 2);
      XorHalves(Xor(a, b), b, Xor(Xor(a, b), b));
    }
  }

  lemma XorSame(b: nat)
    ensures Xor(b, b) == 0
  {
  }

  /** Helper: the last bit and the others. */
  lemma XorHalves(a: nat, b: nat, x: nat)
    requires x == Xor(a, b)
    ensures x / 2 == Xor(a / 2, b / 2) && x % 2 == (if a % 2 == b % 2 then 0 else 1)
  {
    if a != 0 && b != 0 { HalfOf(if a % 2 == b % 2 then 0 else 1, Xor(a / 2, b / 2), x); }
  }

  lemma HalfOf(bit: nat, half: nat, x: nat)
    requires bit < 2 && x == bit + 2 * half
    ensures x / 2 == half && x % 2 == bit
  {
  }

  function Two(k: nat): nat {
    if k == 0 then 1 else 2 * Two(k - 1)
  }

  lemma TwoFourth(k: nat)
    ensures Two(k + 4) == 16 * Two(k)
  {
    assert Two(k + 2) == 4 * Two(k);
  }

  lemma Two32()
    ensures Two(32) == 0x1_0000_0000
  {
    TwoFourth(0);
    TwoFourth(4);
    TwoFourth(8);
    TwoFourth(12);
    TwoFourth(16);
    TwoFourth(20);
    TwoFourth(24);
    TwoFourth(28);
  }

  lemma {:induction false} XorBelow(a: nat, b: nat, k: nat)
    requires a < Two(k) && b < Two(k)
    ensures Xor(a, b) < Two(k)
  {
    if a != 0 && b != 0 { XorBelow(a / 2, b / 2, k - 1); }
  }

  lemma TimesPrimeInjective(x: nat, y: nat)
    requires x < 0x1_0000_0000 && y < 0x1_0000_0000 && x * PRIME % 0x1_0000_0000 == y * PRIME % 0x1_0000_0000
    ensures x == y
  {
    var q := x * PRIME / 0x1_0000_0000 - y * PRIME / 0x1_0000_0000;
    assert PRIME * INVERSE == 1 + 3513497 * 0x1_0000_0000;
    assert (x - y) * PRIME == q * 0x1_0000_0000;
    assert (x - y) * PRIME * INVERSE == q * 0x1_0000_0000 * INVERSE;
    assert x - y == (q * INVERSE - (x - y) * 3513497) * 0x1_0000_0000;
  }

  lemma RoundInjective(g: nat, h: nat, a: Byte, b: Byte)
    requires g < 0x1_0000_0000 && h < 0x1_0000_0000 && (g == h <==> a != b)
    ensures Xor(g, a as nat) * PRIME % 0x1_0000_0000 != Xor(h, b as nat) * PRIME % 0x1_0000_0000
  {
    Two32();
    XorBelow(g, a as nat, 32);
    XorBelow(h, b as nat, 32);
    XorCancel(g, a as nat);
    XorCancel(h, b as nat);
    XorCommutes(g, a as nat);
    XorCommutes(h, b as nat);
    XorCancel(a as nat, g);
    XorCancel(b as nat, h);
    if Xor(g, a as nat) * PRIME % 0x1_0000_0000 == Xor(h, b as nat) * PRIME % 0x1_0000_0000 {
      TimesPrimeInjective(Xor(g, a as nat), Xor(h, b as nat));
    }
  }

  lemma {:induction false} FnvInjective(g: nat, h: nat, p: Bytes)
    requires g < 0x1_0000_0000 && h < 0x1_0000_0000 && g != h
    ensures Fnv(g, p) != Fnv(h, p)
    decreases |p|
  {
    if p != [] {
      RoundInjective(g, h, p[0], p[0]);
      FnvInjective(Xor(g, p[0] as nat) * PRIME % 0x1_0000_0000, Xor(h, p[0] as nat) * PRIME % 0x1_0000_0000, p[1..]);
    }
  }

  lemma {:induction false} FnvOneByte(h: nat, p: Bytes, i: nat, b: Byte)
    requires h < 0x1_0000_0000 && i < |p| && p[i] != b
    ensures Fnv(h, p[i := b]) != Fnv(h, p)
    decreases |p|
  {
    if i == 0 {
      assert p[i := b][1..] == p[1..];
      RoundInjective(h, h, b, p[0]);
      FnvInjective(Xor(h, b as nat) * PRIME % 0x1_0000_0000, Xor(h, p[0] as nat) * PRIME % 0x1_0000_0000, p[1..]);
    } else {
      assert p[i := b][1..] == p[1..][i - 1 := b];
      FnvOneByte(Xor(h, p[0] as nat) * PRIME % 0x1_0000_0000, p[1..], i - 1, b);
    }
  }

  lemma {:induction false} FnvFits(h: nat, p: Bytes)
    requires h < 0x1_0000_0000
    ensures Fnv(h, p) < 0x1_0000_0000
    decreases |p|
  {
    if p != [] { FnvFits(Xor(h, p[0] as nat) * PRIME % 0x1_0000_0000, p[1..]); }
  }

  /** A payload checksum, cut to 32 bits. What follows holds for every choice of it. */
  type Checksum = Bytes -> nat

  function Sum(ck: Checksum, p: Bytes): nat {
    ck(p) % 0x1_0000_0000
  }

  // ---- Format ----

  function Encode(ck: Checksum, r: Record): (bs: Bytes)
    ensures |bs| == 9 + |r.payload|
  {
    [r.kind] + Le(|r.payload| % 0x1_0000_0000, 4) + Le(Sum(ck, r.payload), 4) + r.payload
  }

  function EncodeAll(ck: Checksum, rs: seq<Record>): Bytes {
    if rs == [] then [] else Encode(ck, rs[0]) + EncodeAll(ck, rs[1..])
  }

  function FileOf(ck: Checksum, rs: seq<Record>): Bytes {
    Le(MAGIC, 4) + EncodeAll(ck, rs)
  }

  /** A log begins with the bytes of "1LAW". */
  lemma MagicLayout(ck: Checksum)
    ensures FileOf(ck, []) == [0x31, 0x4c, 0x41, 0x57]
  {
    assert Le(0x57, 1) == [0x57];
    assert Le(0x5741, 2) == [0x41] + Le(0x57, 1);
    assert Le(0x57414c, 3) == [0x4c] + Le(0x5741, 2);
  }

  /** A record on disk: its kind, the length and the checksum of the payload with their lowest byte first, the payload. */
  lemma RecordLayout(ck: Checksum, r: Record)
    requires Fits(r)
    ensures var bs := Encode(ck, r);
      bs[0] == r.kind && FromLe(bs[1..5]) == |r.payload| && FromLe(bs[5..9]) == Sum(ck, r.payload) && bs[9..] == r.payload
  {
    var bs, length, sum := Encode(ck, r), Le(|r.payload| % 0x1_0000_0000, 4), Le(Sum(ck, r.payload), 4);
    assert bs[1..5] == length && bs[5..9] == sum;
    SmallMod(|r.payload|);
    RoundTrip32(|r.payload|);
    RoundTrip32(Sum(ck, r.payload));
  }

  predicate Fits(r: Record) {
    |r.payload| < 0x1_0000_0000
  }

  /** What the reader makes of the bytes after the magic number: it stops at the first bad record. */
  function Parse(ck: Checksum, bs: Bytes): seq<Record> {
    if |bs| < 9 then []
    else
      var len := FromLe(bs[1..5]);
      if len > |bs| - 9 then []
      else
        var p := bs[9..9 + len];
        if Sum(ck, p) != FromLe(bs[5..9]) then [] else [Record(bs[0], p)] + Parse(ck, bs[9 + len..])
  }

  function Recovered(ck: Checksum, file: Bytes): seq<Record> {
    if |file| < 4 || FromLe(file[..4]) != MAGIC then [] else Parse(ck, file[4..])
  }

  /** One turn of the reader: the next record and its size, or nothing if the log ends here. */
  method ReadOne(ck: Checksum, bs: Bytes) returns (r: Option<Record>)
    ensures r.None? ==> Parse(ck, bs) == []
    ensures r.Some? ==> 9 + |r.value.payload| <= |bs|
    ensures r.Some? ==> Parse(ck, bs) == [r.value] + Parse(ck, bs[9 + |r.value.payload|..])
  {
    if |bs| < 5 { return None; }
    var len := FromLe(bs[1..5]);
    if |bs| < 9 { return None; }
    var checksum := FromLe(bs[5..9]);
    if len > |bs| - 9 { return None; }
    var payload := bs[9..9 + len];
    if Sum(ck, payload) != checksum { return None; }
    return Some(Record(bs[0], payload));
  }

  /** `wal_read_records`. */
  method ReadRecords(ck: Checksum, file: Bytes) returns (records: seq<Record>)
    ensures records == Recovered(ck, file)
  {
    records := [];
    if |file| < 4 || FromLe(file[..4]) != MAGIC { return; }
    ghost var all := Recovered(ck, file);
    var rest := file[4..];
    while rest != []
      invariant records + Parse(ck, rest) == all
      decreases |rest|
    {
      var r := ReadOne(ck, rest);
      if r.None? { return; }
      var next := rest[9 + |r.value.payload|..];
      MoveOver(records, Parse(ck, rest), r.value, Parse(ck, next), all);
      records, rest := records + [r.value], next;
    }
  }

  lemma MoveOver(done: seq<Record>, tail: seq<Record>, r: Record, more: seq<Record>, all: seq<Record>)
    requires done + tail == all && tail == [r] + more
    ensures done + [r] + more == all
  {
  }

  // ---- Reading back ----

  /** Helper: where the parts of a record lie. */
  lemma Header(kind: Byte, len: Bytes, sum: Bytes, tail: Bytes)
    requires |len| == 4 && |sum| == 4
    ensures var bs := [kind] + len + sum + tail;
      |bs| == 9 + |tail| && bs[0] == kind && bs[1..5] == len && bs[5..9] == sum && bs[9..] == tail
  {
  }

  lemma CutTail(head: Bytes, payload: Bytes, n: nat, rest: Bytes)
    requires |head| <= n <= |head| + |payload|
    ensures (head + payload)[..n] + rest == head + (payload[..n - |head|] + rest)
  {
  }

  /** Helper: the four parts of a record. */
  lemma Parts(kind: Byte, len: Bytes, sum: Bytes, payload: Bytes, n: nat, rest: Bytes)
    requires |len| == 4 && |sum| == 4 && 9 <= n <= 9 + |payload|
    ensures var bs := ([kind] + len + sum + payload)[..n] + rest;
      && |bs| == n + |rest| && bs[0] == kind && bs[1..5] == len && bs[5..9] == sum
      && (n == 9 + |payload| ==> bs[9..n] == payload && bs[n..] == rest)
  {
    var tail := payload[..n - 9] + rest;
    var bs := ([kind] + len + sum + payload)[..n] + rest;
    CutTail([kind] + len + sum, payload, n, rest);
    Header(kind, len, sum, tail);
    if n == 9 + |payload| {
      assert payload[..n - 9] == payload;
      assert bs[9..n] == bs[9..][..n - 9] && bs[n..] == bs[9..][n - 9..];
    }
  }

  /** Helper: the header fields of a record at the front of a byte string. */
  lemma HeaderFields(ck: Checksum, r: Record, n: nat, rest: Bytes)
    requires Fits(r) && 9 <= n <= |Encode(ck, r)|
    ensures var bs := Encode(ck, r)[..n] + rest;
      && |bs| >= 9 && bs[0] == r.kind
      && FromLe(bs[1..5]) == |r.payload| && FromLe(bs[5..9]) == Sum(ck, r.payload)
      && (n == |Encode(ck, r)| ==> bs[9..n] == r.payload && bs[n..] == rest)
  {
    assert |r.payload| % 0x1_0000_0000 == |r.payload|;
    Parts(r.kind, Le(|r.payload|, 4), Le(Sum(ck, r.payload), 4), r.payload, n, rest);
    SmallMod(|r.payload|);
    RoundTrip32(|r.payload|);
    RoundTrip32(Sum(ck, r.payload));
  }

  /** One whole record at the front is read, and reading goes on behind it. */
  lemma ParseWhole(ck: Checksum, r: Record, rest: Bytes)
    requires Fits(r)
    ensures Parse(ck, Encode(ck, r) + rest) == [r] + Parse(ck, rest)
  {
    var n := |Encode(ck, r)|;
    assert Encode(ck, r)[..n] == Encode(ck, r);
    HeaderFields(ck, r, n, rest);
  }

  /** A record that is not whole, even with the bytes behind it, ends the log. */
  lemma ParseTorn(ck: Checksum, r: Record, n: nat, rest: Bytes)
    requires Fits(r) && n + |rest| < |Encode(ck, r)|
    requires n >= 9 || rest == []
    ensures Parse(ck, Encode(ck, r)[..n] + rest) == []
  {
    if n >= 9 {
      HeaderFields(ck, r, n, rest);
    }
  }

  /**
   * For every list of appended records and every length at which the file may be cut, exactly the
   * records that lie wholly within the remaining bytes are recovered, in order.
   */
  lemma CutRecoversWholeRecords(ck: Checksum, rs: seq<Record>, n: nat)
    requires n <= |FileOf(ck, rs)| && forall r | r in rs :: Fits(r)
    ensures var got := Recovered(ck, FileOf(ck, rs)[..n]);
      && |got| <= |rs| && got == rs[..|got|]
      && forall k | 0 < k <= |rs| :: k <= |got| <==> |FileOf(ck, rs[..k])| <= n
  {
    var file := FileOf(ck, rs)[..n];
    var got := Recovered(ck, file);
    if n >= 4 {
      assert file[..4] == Le(MAGIC, 4) && file[4..] == EncodeAll(ck, rs)[..n - 4];
      RoundTrip32(MAGIC);
      CutParse(ck, rs, n - 4, Parse(ck, EncodeAll(ck, rs)[..n - 4]));
    }
    forall k | 0 < k <= |rs| ensures k <= |got| <==> |FileOf(ck, rs[..k])| <= n {
      if n >= 4 { CutCount(ck, rs, n - 4, k); } else { SizeOfFirst(ck, rs, k); }
    }
  }

  lemma {:induction false} CutParse(ck: Checksum, rs: seq<Record>, n: nat, got: seq<Record>)
    requires n <= |EncodeAll(ck, rs)| && (forall r | r in rs :: Fits(r)) && got == Parse(ck, EncodeAll(ck, rs)[..n])
    ensures |got| <= |rs| && got == rs[..|got|]
  {
    if rs != [] {
      var e := |Encode(ck, rs[0])|;
      CutFirst(ck, rs, n);
      if n >= e {
        var more := Parse(ck, EncodeAll(ck, rs[1..])[..n - e]);
        CutParse(ck, rs[1..], n - e, more);
        PrefixCons(rs, |more|);
      }
    }
  }

  lemma PrefixCons(rs: seq<Record>, k: nat)
    requires k < |rs|
    ensures rs[..k + 1] == [rs[0]] + rs[1..][..k]
  {
  }

  /** How many records survive a cut, by the sizes of the prefixes. */
  lemma {:induction false} CutCount(ck: Checksum, rs: seq<Record>, n: nat, k: nat)
    requires n <= |EncodeAll(ck, rs)| && (forall r | r in rs :: Fits(r)) && 0 < k <= |rs|
    ensures k <= |Parse(ck, EncodeAll(ck, rs)[..n])| <==> |EncodeAll(ck, rs[..k])| <= n
  {
    var e := |Encode(ck, rs[0])|;
    CutFirst(ck, rs, n);
    SizeOfFirst(ck, rs, k);
    if n >= e && k > 1 { CutCount(ck, rs[1..], n - e, k - 1); }
  }

  /** Helper: the size of a prefix of a record list. */
  lemma SizeOfFirst(ck: Checksum, rs: seq<Record>, k: nat)
    requires 0 < k <= |rs|
    ensures |EncodeAll(ck, rs[..k])| == |Encode(ck, rs[0])| + |EncodeAll(ck, rs[1..][..k - 1])|
    ensures |Encode(ck, rs[0])| >= 9 && (k == 1 ==> EncodeAll(ck, rs[1..][..k - 1]) == [])
  {
    assert rs[..k][1..] == rs[1..][..k - 1];
  }

  /** Helper: the first record of a cut log. */
  lemma CutFirst(ck: Checksum, rs: seq<Record>, n: nat)
    requires rs != [] && n <= |EncodeAll(ck, rs)| && Fits(rs[0])
    ensures var e := |Encode(ck, rs[0])|;
      Parse(ck, EncodeAll(ck, rs)[..n]) == if n < e then [] else [rs[0]] + Parse(ck, EncodeAll(ck, rs[1..])[..n - e])
  {
    var e, more := Encode(ck, rs[0]), EncodeAll(ck, rs[1..]);
    CutOne(e, more, n);
    if n < |e| {
      ParseTorn(ck, rs[0], n, []);
    } else {
      ParseWhole(ck, rs[0], more[..n - |e|]);
    }
  }

  lemma CutOne(e: Bytes, more: Bytes, n: nat)
    requires n <= |e| + |more|
    ensures (e + more)[..n] == if n < |e| then e[..n] + [] else e + more[..n - |e|]
  {
  }

  /** Helper: the payload the reader finds when later bytes fill up a torn record. */
  lemma FilledPayload(head: Bytes, payload: Bytes, n: nat, later: Bytes, miss: nat)
    requires |head| == 9 && 9 <= n <= 9 + |payload| && miss == 9 + |payload| - n && miss <= |later|
    ensures ((head + payload)[..n] + later)[9..9 + |payload|] == payload[..n - 9] + later[..miss]
  {
    CutTail(head, payload, n, later);
    assert (head + (payload[..n - 9] + later))[9..9 + |payload|] == (payload[..n - 9] + later)[..|payload|];
  }

  /** Helper: when the reader stops at once. */
  lemma ParseStops(ck: Checksum, bs: Bytes, payload: Bytes, n: nat, later: Bytes)
    requires |bs| == n + |later| && 9 <= n < 9 + |payload|
    requires FromLe(bs[1..5]) == |payload| && FromLe(bs[5..9]) == Sum(ck, payload)
    requires 9 + |payload| - n <= |later| ==> bs[9..9 + |payload|] == payload[..n - 9] + later[..9 + |payload| - n]
    ensures var miss := 9 + |payload| - n;
      Parse(ck, bs) == [] <==> |later| < miss || Sum(ck, payload[..n - 9] + later[..miss]) != Sum(ck, payload)
  {
  }

  /** Helper: the payload behind the header of a torn record. */
  lemma EncodeFilled(ck: Checksum, torn: Record, n: nat, later: Bytes)
    requires 9 <= n < 9 + |torn.payload| && 9 + |torn.payload| - n <= |later|
    ensures (Encode(ck, torn)[..n] + later)[9..9 + |torn.payload|] == torn.payload[..n - 9] + later[..9 + |torn.payload| - n]
  {
    FilledPayload([torn.kind] + Le(|torn.payload| % 0x1_0000_0000, 4) + Le(Sum(ck, torn.payload), 4), torn.payload,
                  n, later, 9 + |torn.payload| - n);
  }

  /** The reader at a torn record with later bytes behind it. */
  lemma ParseFilled(ck: Checksum, torn: Record, n: nat, later: Bytes, bs: Bytes)
    requires Fits(torn) && 9 <= n < 9 + |torn.payload| && bs == Encode(ck, torn)[..n] + later
    ensures var miss := 9 + |torn.payload| - n;
      Parse(ck, bs) == [] <==>
        |later| < miss || Sum(ck, torn.payload[..n - 9] + later[..miss]) != Sum(ck, torn.payload)
  {
    HeaderFields(ck, torn, n, later);
    if 9 + |torn.payload| - n <= |later| { EncodeFilled(ck, torn, n, later); }
    ParseStops(ck, bs, torn.payload, n, later);
  }

  /** Whatever follows whole records, they are recovered first. */
  lemma RecoveredThen(ck: Checksum, rs: seq<Record>, tail: Bytes)
    requires forall r | r in rs :: Fits(r)
    ensures Recovered(ck, FileOf(ck, rs) + tail) == rs + Parse(ck, tail)
  {
    var records := EncodeAll(ck, rs) + tail;
    RoundTrip32(MAGIC);
    RecoveredParts(ck, Le(MAGIC, 4), records, FileOf(ck, rs) + tail);
    ParseAll(ck, rs, tail, Parse(ck, records));
  }

  lemma RecoveredParts(ck: Checksum, magic: Bytes, records: Bytes, file: Bytes)
    requires |magic| == 4 && FromLe(magic) == MAGIC && file == magic + records
    ensures Recovered(ck, file) == Parse(ck, records)
  {
    assert file[..4] == magic && file[4..] == records;
  }

  /** The bytes begin with something that the reader takes for a record. */
  predicate StartsRecord(ck: Checksum, bs: Bytes) {
    && |bs| >= 9 && FromLe(bs[1..5]) <= |bs| - 9
    && Sum(ck, bs[9..9 + FromLe(bs[1..5])]) == FromLe(bs[5..9])
  }

  lemma ParseNothingIff(ck: Checksum, bs: Bytes)
    ensures Parse(ck, bs) == [] <==> !StartsRecord(ck, bs)
  {
  }

  /**
   * The writer reopens a log for appending without cutting a torn record off. Of the records appended after the crash
   * none is readable, exactly as long as the torn bytes and the new ones do not read as a record: behind a whole header,
   * as long as the new bytes do not fill the torn record up to one with its checksum.
   */
  lemma TornTailHidesLaterRecords(ck: Checksum, rs: seq<Record>, torn: Record, n: nat, later: Bytes)
    requires (forall r | r in rs :: Fits(r)) && Fits(torn) && n < |Encode(ck, torn)|
    ensures var miss, tail := |Encode(ck, torn)| - n, Encode(ck, torn)[..n] + later;
      && (Recovered(ck, FileOf(ck, rs) + tail) == rs <==> !StartsRecord(ck, tail))
      && (n >= 9 ==> (StartsRecord(ck, tail) <==>
            |later| >= miss && Sum(ck, torn.payload[..n - 9] + later[..miss]) == Sum(ck, torn.payload)))
  {
    var tail := Encode(ck, torn)[..n] + later;
    if n >= 9 { ParseFilled(ck, torn, n, later, tail); }
    ParseNothingIff(ck, tail);
    RecoveredThen(ck, rs, tail);
    SameIffNothing(rs, Parse(ck, tail));
  }

  lemma ByteReplaced(whole: Bytes, payload: Bytes, i: nat, b: Byte, rest: Bytes, later: Bytes)
    requires |whole| == 9 + |payload| && whole[9..] == payload && i < |payload| && later == [b] + payload[i + 1..] + rest
    ensures whole[9 + i := b] + rest == whole[..9 + i] + later
    ensures |payload| - i <= |later| && payload[..i] + later[..|payload| - i] == payload[i := b]
  {
    assert later[..|payload| - i] == [b] + payload[i + 1..];
    assert payload[i := b] == payload[..i] + ([b] + payload[i + 1..]);
    assert whole[9 + i := b] == whole[..9 + i] + ([b] + whole[10 + i..]);
    assert whole[10 + i..] == payload[i + 1..];
  }

  lemma OneByteChangesSum(payload: Bytes, i: nat, b: Byte)
    requires i < |payload| && payload[i] != b
    ensures Sum(Fnv1a, payload[i := b]) != Sum(Fnv1a, payload)
  {
    FnvOneByte(2166136261, payload, i, b);
    FnvFits(2166136261, payload);
    FnvFits(2166136261, payload[i := b]);
  }

  /** With FNV-1a a record whose payload has one wrong byte is not read, whatever follows it. */
  lemma DamagedByteStopsReading(rs: seq<Record>, r: Record, i: nat, b: Byte, rest: Bytes)
    requires (forall x | x in rs :: Fits(x)) && Fits(r) && i < |r.payload| && r.payload[i] != b
    ensures Recovered(Fnv1a, FileOf(Fnv1a, rs) + (Encode(Fnv1a, r)[9 + i := b] + rest)) == rs
  {
    var later := [b] + r.payload[i + 1..] + rest;
    ByteReplaced(Encode(Fnv1a, r), r.payload, i, b, rest, later);
    OneByteChangesSum(r.payload, i, b);
    TornTailHidesLaterRecords(Fnv1a, rs, r, 9 + i, later);
  }

  lemma SameIffNothing(rs: seq<Record>, more: seq<Record>)
    ensures rs + more == rs <==> more == []
  {
    assert |rs + more| == |rs| + |more|;
  }

  lemma {:induction false} ParseAll(ck: Checksum, rs: seq<Record>, tail: Bytes, got: seq<Record>)
    requires (forall r | r in rs :: Fits(r)) && got == Parse(ck, EncodeAll(ck, rs) + tail)
    ensures got == rs + Parse(ck, tail)
  {
    if rs == [] {
      assert EncodeAll(ck, rs) + tail == tail;
    } else {
      var more := Parse(ck, EncodeAll(ck, rs[1..]) + tail);
      assert got == [rs[0]] + more by { FrontRecord(ck, rs, tail); }
      ParseAll(ck, rs[1..], tail, more);
      ConsAppend(rs, Parse(ck, tail));
    }
  }

  lemma ConsAppend(rs: seq<Record>, more: seq<Record>)
    requires rs != []
    ensures [rs[0]] + (rs[1..] + more) == rs + more
  {
  }

  /** Helper: reading past the first record. */
  lemma FrontRecord(ck: Checksum, rs: seq<Record>, tail: Bytes)
    requires rs != [] && Fits(rs[0])
    ensures Parse(ck, EncodeAll(ck, rs) + tail) == [rs[0]] + Parse(ck, EncodeAll(ck, rs[1..]) + tail)
  {
    assert EncodeAll(ck, rs) + tail == Encode(ck, rs[0]) + (EncodeAll(ck, rs[1..]) + tail);
    ParseWhole(ck, rs[0], EncodeAll(ck, rs[1..]) + tail);
  }

  lemma {:induction false} EncodeAllAppend(ck: Checksum, rs: seq<Record>, r: Record)
    ensures EncodeAll(ck, rs + [r]) == EncodeAll(ck, rs) + Encode(ck, r)
  {
    if rs != [] {
      EncodeAllAppend(ck, rs[1..], r);
      assert (rs + [r])[1..] == rs[1..] + [r];
    } else {
      assert EncodeAll(ck, []) == [];
    }
  }

  lemma FileAppend(ck: Checksum, rs: seq<Record>, r: Record)
    ensures FileOf(ck, rs + [r]) == FileOf(ck, rs) + Encode(ck, r) && |Encode(ck, r)| == 9 + |r.payload|
  {
    EncodeAllAppend(ck, rs, r);
    assert Le(MAGIC, 4) + (EncodeAll(ck, rs) + Encode(ck, r)) == Le(MAGIC, 4) + EncodeAll(ck, rs) + Encode(ck, r);
  }

  /** `WalWriter`: an append-only file with a flag that asks for the next group sync. */
  class WalWriter {
    const ck: Checksum
    var file: Bytes
    var needsSync: bool
    ghost var records: seq<Record>

    ghost predicate Valid() reads this {
      file == FileOf(ck, records) && forall r | r in records :: Fits(r)
    }

    constructor (sum: Checksum)
      ensures Valid() && ck == sum && records == [] && !needsSync
    {
      ck, file, needsSync, records := sum, Le(MAGIC, 4), false, [];
    }

    method Append(r: Record)
      requires Valid() && Fits(r)
      modifies this
      ensures Valid() && needsSync && records == old(records) + [r]
      ensures old(file) <= file && |file| == |old(file)| + 9 + |r.payload|
    {
      FileAppend(ck, records, r);
      file := file + Encode(ck, r);
      needsSync, records := true, records + [r];
    }

    /** Keeps only the magic number. */
    method Truncate()
      requires Valid()
      modifies this
      ensures Valid() && records == [] && needsSync == old(needsSync)
    {
      file, records := Le(MAGIC, 4), [];
    }
  }
}
