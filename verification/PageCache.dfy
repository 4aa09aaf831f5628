/** The page cache: clock replacement, pinning and write-back, against one logical content per page. */
module PageCache {
  import opened Values

  datatype PageId = PageId(file: string, index: nat)

  type Data = seq<Byte>

  datatype Frame = Frame(page: Option<PageId>, data: Data, dirty: bool, pins: nat, usage: nat)

  datatype Disk = Disk(files: set<string>, pages: map<PageId, Data>)

  /**
   * The whole state. `stale` holds the pages that were in use when their file was replaced; it is bookkeeping of the
   * model and steers nothing.
   */
  datatype Pool = Pool(size: nat, frames: seq<Frame>, table: map<PageId, nat>, free: seq<nat>, hand: nat, disk: Disk,
                       stale: set<PageId>)

  function Zeros(n: nat): Data { seq(n, _ => 0) }

  /** A page past the end of its file reads as zeros. */
  function OnDisk(p: Pool, id: PageId): Data {
    if id in p.disk.pages then p.disk.pages[id] else Zeros(p.size)
  }

  /** What a page holds: the cached frame if there is one, otherwise the disk. */
  function Content(p: Pool, id: PageId): Data {
    if id in p.table && p.table[id] < |p.frames| then p.frames[p.table[id]].data else OnDisk(p, id)
  }

  // ---- Every frame is free or holds exactly one page ----

  predicate FrameOk(p: Pool, f: nat)
    requires f < |p.frames|
  {
    var frame := p.frames[f];
    match frame.page
    case None => f in p.free && !frame.dirty && frame.pins == 0
    case Some(id) =>
      && id in p.table && p.table[id] == f
      && (!frame.dirty && id !in p.stale ==> id.file in p.disk.files && frame.data == OnDisk(p, id))
  }

  ghost predicate Indexed(p: Pool) {
    && p.hand < |p.frames|
    && (forall id | id in p.table :: p.table[id] < |p.frames| && p.frames[p.table[id]].page == Some(id))
    && (forall f | f in p.free :: f < |p.frames| && p.frames[f].page.None?)
    && (forall i, j | 0 <= i < j < |p.free| :: p.free[i] != p.free[j])
    && (forall f | 0 <= f < |p.frames| :: p.frames[f].usage <= 1)
    && p.stale <= p.table.Keys
  }

  ghost predicate Valid(p: Pool) {
    Indexed(p) && forall f | 0 <= f < |p.frames| :: FrameOk(p, f)
  }

  /** One frame taken out: neither free nor mapped, whatever page it still names. */
  ghost predicate Detached(p: Pool, f: nat) {
    && f < |p.frames| && p.hand < |p.frames|
    && (forall id | id in p.table ::
         p.table[id] < |p.frames| && p.table[id] != f && p.frames[p.table[id]].page == Some(id))
    && (forall g | g in p.free :: g < |p.frames| && g != f && p.frames[g].page.None?)
    && (forall i, j | 0 <= i < j < |p.free| :: p.free[i] != p.free[j])
    && (forall g | 0 <= g < |p.frames| :: p.frames[g].usage <= 1)
    && p.stale <= p.table.Keys
    && forall g | 0 <= g < |p.frames| && g != f :: FrameOk(p, g)
  }

  /** No page changes its content, except those that were already stale. */
  ghost predicate SameContent(p: Pool, q: Pool) {
    q.stale <= p.stale && forall id | id !in p.stale :: Content(q, id) == Content(p, id)
  }

  /** A pinned frame keeps its page and its data. */
  ghost predicate PinnedStay(p: Pool, q: Pool) {
    |q.frames| == |p.frames| && forall f | 0 <= f < |p.frames| && p.frames[f].pins > 0 ::
      q.frames[f].page == p.frames[f].page && q.frames[f].data == p.frames[f].data
  }

  ghost predicate SamePins(a: seq<Frame>, b: seq<Frame>) {
    |b| == |a| && forall f | 0 <= f < |a| :: b[f].pins == a[f].pins
  }

  /** How often a page is pinned. */
  function Pins(p: Pool, id: PageId): nat {
    if id in p.table && p.table[id] < |p.frames| then p.frames[p.table[id]].pins else 0
  }

  ghost predicate PinnedOnce(p: Pool, q: Pool, id: PageId) {
    forall x :: Pins(q, x) == Pins(p, x) + if x == id then 1 else 0
  }

  /** From one state to the next, an unpinned frame was taken out and nothing else was disturbed. */
  ghost predicate TakenOut(p: Pool, q: Pool, f: nat) {
    && Detached(q, f) && SameContent(p, q) && PinnedStay(p, q)
    && q.table.Keys <= p.table.Keys && p.disk.files <= q.disk.files
    && p.frames[f].pins == 0 && SamePins(p.frames, q.frames)
    && (forall x | x in q.table :: q.table[x] == p.table[x])
    && (q.frames[f].page.Some? ==> q.frames[f].page.value in p.table)
  }

  // ---- The elementary changes ----

  function Flushed(p: Pool, f: nat): Pool
    requires f < |p.frames|
  {
    var frame := p.frames[f];
    if frame.page.None? || !frame.dirty then p else
    p.(frames := p.frames[f := frame.(dirty := false)],
       disk := Disk(p.disk.files + {frame.page.value.file}, p.disk.pages[frame.page.value := frame.data]))
  }

  lemma FlushKeeps(p: Pool, f: nat)
    requires Valid(p) && f < |p.frames|
    ensures Valid(Flushed(p, f)) && SameContent(p, Flushed(p, f))
    ensures !Flushed(p, f).frames[f].dirty && Flushed(p, f).table == p.table
  {
    var q := Flushed(p, f);
    assert FrameOk(p, f);
    forall g | 0 <= g < |q.frames| ensures FrameOk(q, g) {
      assert FrameOk(p, g);
    }
  }

  /** The page of a free or an unpinned, clean frame leaves the table. */
  function Unmapped(p: Pool, f: nat): Pool
    requires f < |p.frames| && p.frames[f].page.Some?
  {
    p.(table := p.table - {p.frames[f].page.value}, stale := p.stale - {p.frames[f].page.value})
  }

  lemma UnmapDetaches(p: Pool, f: nat)
    requires Valid(p) && f < |p.frames| && p.frames[f].page.Some? && !p.frames[f].dirty
    ensures Detached(Unmapped(p, f), f) && SameContent(p, Unmapped(p, f))
    ensures Unmapped(p, f).table.Keys <= p.table.Keys
  {
    var q, id := Unmapped(p, f), p.frames[f].page.value;
    assert FrameOk(p, f);
    forall g | 0 <= g < |q.frames| && g != f ensures FrameOk(q, g) {
      assert FrameOk(p, g);
    }
    forall x | x !in p.stale ensures Content(q, x) == Content(p, x) {
      if x == id { assert x !in q.table; }
    }
  }

  lemma TakeFreeDetaches(p: Pool)
    requires Valid(p) && p.free != []
    ensures TakenOut(p, p.(free := p.free[1..]), p.free[0])
  {
    var q, f := p.(free := p.free[1..]), p.free[0];
    assert f in p.free && FrameOk(p, f);
    forall g | 0 <= g < |q.frames| && g != f ensures FrameOk(q, g) {
      assert FrameOk(p, g);
      assert g in p.free ==> g in q.free;
    }
  }

  function Attached(p: Pool, f: nat, id: PageId, frame: Frame): Pool
    requires f < |p.frames|
  {
    p.(frames := p.frames[f := frame], table := p.table[id := f])
  }

  lemma AttachKeeps(p: Pool, f: nat, id: PageId, frame: Frame)
    requires Detached(p, f) && id !in p.table && frame.page == Some(id) && frame.usage <= 1
    requires frame.dirty || (id.file in p.disk.files && frame.data == OnDisk(p, id))
    ensures Valid(Attached(p, f, id, frame)) && Content(Attached(p, f, id, frame), id) == frame.data
    ensures forall x | x != id :: Content(Attached(p, f, id, frame), x) == Content(p, x)
  {
    var q := Attached(p, f, id, frame);
    forall g | 0 <= g < |q.frames| ensures FrameOk(q, g) {
      if g != f { assert FrameOk(p, g); }
    }
  }

  /** A mapped frame changes in place. */
  function Changed(p: Pool, f: nat, frame: Frame): Pool
    requires f < |p.frames|
  {
    p.(frames := p.frames[f := frame])
  }

  lemma ChangeKeeps(p: Pool, f: nat, frame: Frame)
    requires Valid(p) && f < |p.frames| && p.frames[f].page.Some? && frame.page == p.frames[f].page && frame.usage <= 1
    requires frame.dirty || (!p.frames[f].dirty && frame.data == p.frames[f].data)
    ensures Valid(Changed(p, f, frame))
    ensures forall x | Some(x) != frame.page :: Content(Changed(p, f, frame), x) == Content(p, x)
    ensures Content(Changed(p, f, frame), frame.page.value) == frame.data
  {
    var q := Changed(p, f, frame);
    assert FrameOk(p, f);
    forall g | 0 <= g < |q.frames| ensures FrameOk(q, g) {
      assert FrameOk(p, g);
    }
  }

  // ---- The clock ----

  /** Only usage marks of unpinned frames were taken away. */
  ghost predicate UsageOnly(before: seq<Frame>, after: seq<Frame>) {
    |after| == |before| && forall f | 0 <= f < |after| ::
      after[f] == before[f] || (before[f].pins == 0 && after[f] == before[f].(usage := 0))
  }

  lemma UsageKeeps(p: Pool, frames: seq<Frame>, hand: nat)
    requires Valid(p) && UsageOnly(p.frames, frames) && hand < |frames|
    ensures Valid(p.(frames := frames, hand := hand)) && SameContent(p, p.(frames := frames, hand := hand))
  {
    var q := p.(frames := frames, hand := hand);
    forall g | 0 <= g < |q.frames| ensures FrameOk(q, g) {
      assert FrameOk(p, g);
    }
  }

  function Step(hand: nat, n: nat): nat
    requires hand < n
  {
    (hand + 1) % n
  }

  lemma StepIs(hand: nat, n: nat)
    requires hand < n
    ensures Step(hand, n) == if hand + 1 == n then 0 else hand + 1
  {
  }

  /** The positions that `k` steps from `start` have passed. */
  predicate Passed(start: nat, k: nat, n: nat, f: nat) {
    start <= f < start + k || f + n < start + k
  }

  /** The position `k` steps from the hand. */
  function At(hand: nat, k: nat, n: nat): nat {
    if hand + k < n then hand + k else if hand + k < 2 * n then hand + k - n else 0
  }

  /** The first unpinned frame from the `k`-th position on, with or without a usage mark. */
  function FirstUnpinned(frames: seq<Frame>, hand: nat, k: nat, marked: bool): Option<nat>
    requires k <= |frames|
    decreases |frames| - k
  {
    if k == |frames| then None else
    var f := At(hand, k, |frames|);
    if f < |frames| && frames[f].pins == 0 && (marked || frames[f].usage == 0) then Some(f)
    else FirstUnpinned(frames, hand, k + 1, marked)
  }

  /** The clock's choice: the first unpinned frame without a mark, and if all are marked the first unpinned one. */
  function Victim(frames: seq<Frame>, hand: nat): Option<nat> {
    var f := FirstUnpinned(frames, hand, 0, false);
    if f.Some? then f else FirstUnpinned(frames, hand, 0, true)
  }

  /** What the sweep knows of the choice. */
  predicate SweptTo(frames: seq<Frame>, hand: nat, passes: nat, k: nat)
    requires k <= |frames|
  {
    && (passes == 0 ==> FirstUnpinned(frames, hand, 0, false) == FirstUnpinned(frames, hand, k, false))
    && (passes == 1 ==> FirstUnpinned(frames, hand, 0, false).None?
                        && FirstUnpinned(frames, hand, 0, true) == FirstUnpinned(frames, hand, k, true))
  }

  lemma SweepOn(frames: seq<Frame>, hand: nat, passes: nat, k: nat)
    requires k < |frames| && hand < |frames| && SweptTo(frames, hand, passes, k) && passes < 2
    requires var f := At(hand, k, |frames|); frames[f].pins > 0 || (passes == 0 && frames[f].usage > 0)
    ensures if k + 1 < |frames| then SweptTo(frames, hand, passes, k + 1) else SweptTo(frames, hand, passes + 1, 0)
  {
    assert FirstUnpinned(frames, hand, k, passes == 1) == FirstUnpinned(frames, hand, k + 1, passes == 1);
    assert FirstUnpinned(frames, hand, |frames|, passes == 1).None?;
  }

  lemma SweepStops(frames: seq<Frame>, hand: nat, passes: nat, k: nat)
    requires k < |frames| && hand < |frames| && SweptTo(frames, hand, passes, k) && passes < 2
    requires var f := At(hand, k, |frames|); frames[f].pins == 0 && (passes == 1 || frames[f].usage == 0)
    ensures Victim(frames, hand) == Some(At(hand, k, |frames|))
  {
  }

  /** The state of the sweep: what it passed has no mark left, and in the second round is pinned. */
  ghost predicate Sweeping(frames: seq<Frame>, frames': seq<Frame>, hand: nat, passes: nat, k: nat)
    requires k < |frames|
  {
    var n := |frames|;
    && UsageOnly(frames, frames') && SweptTo(frames, hand, passes, k) && (passes == 2 ==> k == 0)
    && (forall f | 0 <= f < n :: frames'[f].usage <= 1)
    && (forall f | 0 <= f < n && passes == 0 && !Passed(hand, k, n, f) :: frames'[f] == frames[f])
    && (forall f | 0 <= f < n && (passes >= 1 || Passed(hand, k, n, f)) :: frames'[f].pins > 0 || frames'[f].usage == 0)
    && (forall f | 0 <= f < n && (passes == 2 || (passes == 1 && Passed(hand, k, n, f))) :: frames'[f].pins > 0)
  }

  /** One frame passed: pinned, or with its mark taken away. */
  function Unmarked(frames: seq<Frame>, f: nat): seq<Frame>
    requires f < |frames|
  {
    if frames[f].pins == 0 && frames[f].usage > 0 then frames[f := frames[f].(usage := frames[f].usage - 1)] else frames
  }

  lemma SweepStep(frames: seq<Frame>, frames': seq<Frame>, hand: nat, passes: nat, k: nat)
    requires k < |frames| && hand < |frames| && passes < 2 && Sweeping(frames, frames', hand, passes, k)
    requires var f := At(hand, k, |frames|); frames'[f].pins > 0 || frames'[f].usage > 0
    ensures var next := Unmarked(frames', At(hand, k, |frames|));
      if k + 1 < |frames| then Sweeping(frames, next, hand, passes, k + 1) else Sweeping(frames, next, hand, passes + 1, 0)
  {
    SweepOn(frames, hand, passes, k);
  }

  lemma SweepStarts(frames: seq<Frame>, hand: nat)
    requires hand < |frames| && forall f | 0 <= f < |frames| :: frames[f].usage <= 1
    ensures Sweeping(frames, frames, hand, 0, 0)
  {
  }

  lemma SweepFinds(frames: seq<Frame>, frames': seq<Frame>, hand: nat, passes: nat, k: nat)
    requires k < |frames| == |frames'| && hand < |frames| && passes < 2 && Sweeping(frames, frames', hand, passes, k)
    requires var f := At(hand, k, |frames|); frames'[f].pins == 0 && frames'[f].usage == 0
    ensures UsageOnly(frames, frames') && frames[At(hand, k, |frames|)].pins == 0
    ensures Victim(frames, hand) == Some(At(hand, k, |frames|))
  {
    SweepStops(frames, hand, passes, k);
  }

  lemma SweepFails(frames: seq<Frame>, frames': seq<Frame>, hand: nat)
    requires 0 < |frames| && Sweeping(frames, frames', hand, 2, 0)
    ensures frames' == frames && forall f | 0 <= f < |frames| :: frames[f].pins > 0
  {
    forall f | 0 <= f < |frames| ensures frames'[f] == frames[f] && frames[f].pins > 0 {
      assert frames'[f].pins > 0;
    }
  }

  /**
   * The search for a victim: at most two sweeps, the first of which may only take usage marks away.
   * It fails if and only if every frame is pinned.
   */
  method Sweep(frames: seq<Frame>, hand: nat) returns (found: bool, frames': seq<Frame>, hand': nat)
    requires hand < |frames| && forall f | 0 <= f < |frames| :: frames[f].usage <= 1
    ensures UsageOnly(frames, frames') && hand' < |frames|
    ensures found <==> exists f :: 0 <= f < |frames| && frames[f].pins == 0
    ensures found ==> frames'[hand'].pins == 0 && frames'[hand'].usage == 0 && Victim(frames, hand) == Some(hand')
    ensures !found ==> frames' == frames && hand' == hand
  {
    var n := |frames|;
    frames', hand' := frames, hand;
    var passes := 0;
    ghost var k := 0;
    SweepStarts(frames, hand);
    while passes < 2
      invariant passes <= 2 && 0 <= k < n && hand' == At(hand, k, n) < n && |frames'| == n
      invariant Sweeping(frames, frames', hand, passes, k)
      decreases 2 - passes, n - k
    {
      if frames'[hand'].pins == 0 && frames'[hand'].usage == 0 {
        SweepFinds(frames, frames', hand, passes, k);
        return true, frames', hand';
      }
      SweepStep(frames, frames', hand, passes, k);
      if frames'[hand'].pins == 0 {
        frames' := frames'[hand' := frames'[hand'].(usage := frames'[hand'].usage - 1)];
      }
      StepIs(hand', n);
      hand' := Step(hand', n);
      k := k + 1;
      if hand' == hand {
        passes, k := passes + 1, 0;
      }
    }
    found := false;
    SweepFails(frames, frames', hand);
  }

  /** The files there will be when a frame has been found: the clock's choice is written back when it is dirty. */
  function FilesAfterTaking(p: Pool): set<string> {
    if p.free != [] then p.disk.files else
    match Victim(p.frames, p.hand)
    case None => p.disk.files
    case Some(f) =>
      if f < |p.frames| && p.frames[f].dirty && p.frames[f].page.Some? then p.disk.files + {p.frames[f].page.value.file}
      else p.disk.files
  }

  ghost predicate AllPinned(p: Pool) {
    p.free == [] && forall f | 0 <= f < |p.frames| :: p.frames[f].pins > 0
  }

  /** A page of a file that does not exist, and will not when a frame has been found. */
  ghost predicate MissesFile(p: Pool, op: Op) {
    op.PinPage? && op.id !in p.table && !AllPinned(p) && op.id.file !in FilesAfterTaking(p)
  }

  datatype PinResult = Pinned(frame: nat) | Exhausted | NoFile

  class BufferPool {
    const size: nat
    var frames: seq<Frame>
    var table: map<PageId, nat>
    var free: seq<nat>
    var hand: nat
    var disk: Disk
    ghost var stale: set<PageId>

    ghost function State(): Pool
      reads this
    {
      Pool(size, frames, table, free, hand, disk, stale)
    }

    constructor (size: nat, capacity: nat, disk: Disk)
      requires capacity > 0
      ensures Valid(State()) && table == map[] && this.disk == disk && |frames| == capacity && stale == {}
    {
      this.size := size;
      frames := seq(capacity, _ => Frame(None, Zeros(size), false, 0, 0));
      free := seq(capacity, i => i);
      table, hand, this.disk, stale := map[], 0, disk, {};
      new;
      assert forall f | 0 <= f < capacity :: free[f] == f;
      forall f | 0 <= f < |frames| ensures FrameOk(State(), f) { assert free[f] == f; }
    }

    /** A free frame, or one whose page the clock gives up, written back first when it is dirty. */
    method FindVictim() returns (f: Option<nat>)
      requires Valid(State())
      modifies this
      ensures f.None? <==> AllPinned(old(State()))
      ensures f.None? ==> State() == old(State())
      ensures f.Some? ==> TakenOut(old(State()), State(), f.value) && disk.files == FilesAfterTaking(old(State()))
    {
      if free != [] {
        f := Some(free[0]);
        TakeFreeDetaches(State());
        free := free[1..];
      } else {
        f := ClockVictim();
      }
    }

    /** The clock's choice, with its page written back and unmapped. */
    method ClockVictim() returns (f: Option<nat>)
      requires Valid(State()) && free == []
      modifies this
      ensures f.None? <==> forall g | 0 <= g < |old(frames)| :: old(frames)[g].pins > 0
      ensures f.None? ==> State() == old(State())
      ensures f.Some? ==> TakenOut(old(State()), State(), f.value) && disk.files == FilesAfterTaking(old(State()))
    {
      var found, frames', hand' := Sweep(frames, hand);
      if !found { return None; }
      EvictDetaches(State(), frames', hand');
      GiveUp(frames', hand');
      return Some(hand');
    }

    method GiveUp(frames': seq<Frame>, hand': nat)
      requires hand' < |frames'|
      modifies this
      ensures State() == Evicted(old(State()), frames', hand')
    {
      frames, hand := frames', hand';
      FlushFrame(hand);
      var page := frames[hand].page;
      if page.Some? { table, stale := table - {page.value}, stale - {page.value}; }
      hand := Step(hand, |frames|);
    }

    /**
     * Returns the frame of a page, loading it when necessary. When the page's file does not exist the table already
     * points to a frame with other data, and the pool is no longer valid.
     */
    method Pin(id: PageId) returns (r: PinResult)
      requires Valid(State())
      modifies this
      ensures r.Exhausted? <==> id !in old(table) && AllPinned(old(State()))
      ensures r.Exhausted? ==> State() == old(State())
      ensures r.NoFile? <==> id !in old(table) && !AllPinned(old(State())) && id.file !in FilesAfterTaking(old(State()))
      ensures Valid(State()) <==> !r.NoFile?
      ensures r.Pinned? ==> SameContent(old(State()), State()) && PinnedStay(old(State()), State())
      ensures r.Pinned? ==> id in table && table[id] == r.frame < |frames| && frames[r.frame].pins > 0 && frames[r.frame].usage == 1
      ensures r.Pinned? ==> frames[r.frame].data == Content(State(), id) && old(disk.files) <= disk.files
      ensures r.Pinned? ==> PinnedOnce(old(State()), State(), id)
    {
      if id !in table {
        r := PinMiss(id);
        return;
      }
      var f := table[id];
      var frame := frames[f].(pins := frames[f].pins + 1, usage := 1);
      UseKeeps(State(), f, frame);
      frames := frames[f := frame];
      assert State() == Changed(old(State()), f, frame);
      return Pinned(f);
    }

    method PinMiss(id: PageId) returns (r: PinResult)
      requires Valid(State()) && id !in table
      modifies this
      ensures r.Exhausted? <==> AllPinned(old(State()))
      ensures r.Exhausted? ==> State() == old(State())
      ensures r.NoFile? <==> !AllPinned(old(State())) && id.file !in FilesAfterTaking(old(State()))
      ensures Valid(State()) <==> !r.NoFile?
      ensures r.Pinned? ==> SameContent(old(State()), State()) && PinnedStay(old(State()), State())
      ensures r.Pinned? ==> id in table && table[id] == r.frame < |frames| && frames[r.frame].pins > 0 && frames[r.frame].usage == 1
      ensures r.Pinned? ==> frames[r.frame].data == Content(State(), id) && old(disk.files) <= disk.files
      ensures r.Pinned? ==> PinnedOnce(old(State()), State(), id)
    {
      var victim := FindVictim();
      if victim.None? { return Exhausted; }
      var f := victim.value;
      ghost var before := State();
      table := table[id := f];
      frames := frames[f := frames[f].(pins := 1, usage := 1)];
      if id.file !in disk.files {
        MissingFileBreaks(old(State()), before, f, id);
        assert State() == Attached(before, f, id, before.frames[f].(pins := 1, usage := 1));
        return NoFile;
      }
      var data := if id in disk.pages then disk.pages[id] else Zeros(size);
      frames := frames[f := Frame(Some(id), data, false, 1, 1)];
      LoadKeeps(old(State()), before, f, id);
      TakenAndAttachedPins(old(State()), before, f, id, Frame(Some(id), data, false, 1, 1));
      assert State() == Attached(before, f, id, Frame(Some(id), data, false, 1, 1));
      return Pinned(f);
    }

    /** A page of zeros, cached and dirty. */
    method Allocate(id: PageId) returns (r: Option<nat>)
      requires Valid(State())
      modifies this
      ensures r.None? <==> id !in old(table) && AllPinned(old(State()))
      ensures r.None? ==> State() == old(State())
      ensures Valid(State()) && (r.Some? ==> id in table && table[id] == r.value < |frames| && frames[r.value].pins > 0 && frames[r.value].usage == 1)
      ensures r.Some? ==> Content(State(), id) == Zeros(size) && stale <= old(stale) && PinnedOnce(old(State()), State(), id)
      ensures forall x | x != id && x !in old(stale) :: Content(State(), x) == Content(old(State()), x)
    {
      if id in table {
        var f := table[id];
        var frame := frames[f].(pins := frames[f].pins + 1, usage := 1, data := Zeros(size), dirty := true);
        ChangeKeeps(State(), f, frame);
        frames := frames[f := frame];
        assert State() == Changed(old(State()), f, frame);
        return Some(f);
      }
      var victim := FindVictim();
      if victim.None? { return None; }
      var f, frame := victim.value, Frame(Some(id), Zeros(size), true, 1, 1);
      ghost var before := State();
      AttachKeeps(before, f, id, frame);
      TakenAndAttachedPins(old(State()), before, f, id, frame);
      table, frames := table[id := f], frames[f := frame];
      assert State() == Attached(before, f, id, frame);
      return Some(f);
    }

    /** A client writes the page it has pinned, and marks it dirty. */
    method Write(f: nat, data: Data)
      requires Valid(State()) && f < |frames| && frames[f].pins > 0
      modifies this`frames
      ensures Valid(State()) && |frames| == old(|frames|) && frames[f].page.Some? && frames[f].page == old(frames[f].page)
      ensures Content(State(), frames[f].page.value) == data
      ensures forall x | Some(x) != frames[f].page :: Content(State(), x) == Content(old(State()), x)
      ensures frames == old(frames)[f := old(frames[f]).(data := data, dirty := true)]
    {
      assert FrameOk(State(), f);
      var frame := frames[f].(data := data, dirty := true);
      ChangeKeeps(State(), f, frame);
      frames := frames[f := frame];
      assert State() == Changed(old(State()), f, frame);
    }

    method Unpin(f: nat)
      requires Valid(State()) && f < |frames|
      modifies this`frames
      ensures Valid(State()) && SameContent(old(State()), State())
      ensures frames == old(frames)[f := old(frames[f]).(pins := if old(frames[f].pins) > 0 then old(frames[f].pins) - 1 else 0)]
    {
      if frames[f].pins > 0 {
        var frame := frames[f].(pins := frames[f].pins - 1);
        assert FrameOk(State(), f);
        UseKeeps(State(), f, frame);
        frames := frames[f := frame];
        assert State() == Changed(old(State()), f, frame);
      } else {
        assert frames[f].(pins := 0) == frames[f];
      }
    }

    /** Afterwards the disk holds what every cached page holds. */
    method FlushAll()
      requires Valid(State())
      modifies this
      ensures Valid(State()) && SameContent(old(State()), State()) && table == old(table) && stale == old(stale)
      ensures SamePins(old(frames), frames)
      ensures forall id | id in table && id !in stale :: OnDisk(State(), id) == Content(State(), id)
    {
      for f := 0 to |frames|
        invariant Valid(State()) && SameContent(old(State()), State()) && |frames| == old(|frames|)
        invariant table == old(table) && stale == old(stale) && SamePins(old(frames), frames)
        invariant forall g | 0 <= g < f :: !frames[g].dirty
      {
        FlushKeeps(State(), f);
        ghost var before := State();
        FlushFrame(f);
        SameContentTwice(old(State()), before, State(), State(), State());
      }
      forall id | id in table && id !in stale ensures OnDisk(State(), id) == Content(State(), id) {
        assert FrameOk(State(), table[id]);
      }
    }

    /**
     * The file was replaced as a whole: its pages are dropped without writing them back. A page that is pinned stays,
     * with its old content, until it is unpinned and given up.
     */
    method EvictFile(file: string, replaced: Disk)
      requires Valid(State()) && SameElsewhere(disk, replaced, file)
      modifies this
      ensures Valid(State()) && disk == replaced && PinnedStay(old(State()), State())
      ensures forall id | id in table && id.file == file :: id in old(table) && old(frames[table[id]].pins) > 0
      ensures forall id: PageId | id.file != file && id !in old(stale) :: Content(State(), id) == Content(old(State()), id)
      ensures forall id | id in stale :: id in old(stale) || id.file == file
    {
      var todo := set id | id in table && id.file == file;
      ReplaceKeeps(State(), replaced, file, todo);
      disk, stale := replaced, stale + todo;
      while todo != {}
        invariant Evicting(old(State()), State(), file, todo) && disk == replaced
        decreases todo
      {
        var id :| id in todo;
        ghost var before := State();
        DropOne(id);
        EvictStep(old(State()), before, State(), file, todo, id);
        todo := todo - {id};
      }
    }

    /** One page of a replaced file. */
    method DropOne(id: PageId)
      requires Valid(State()) && id in table && id in stale
      modifies this`frames, this`table, this`free, this`stale
      ensures Dropped(old(State()), State(), id)
    {
      var f := table[id];
      if frames[f].pins == 0 {
        FreeKeeps(State(), f);
        frames := frames[f := frames[f].(page := None, dirty := false, usage := 0)];
        table, free, stale := table - {id}, free + [f], stale - {id};
        assert State() == Freed(old(State()), f);
      } else {
        CleanKeeps(State(), f);
        frames := frames[f := frames[f].(dirty := false)];
        assert State() == Changed(old(State()), f, old(frames[f]).(dirty := false));
      }
    }

    /**
     * Any sequence of client operations; it stops at a page whose file does not exist. `trace` holds the states in
     * between: an operation is carried out exactly when the state it meets does not refuse it.
     */
    method Execute(ops: seq<Op>) returns (done: seq<bool>, ghost trace: seq<Pool>)
      requires Valid(State()) && stale == {}
      modifies this
      ensures |done| <= |ops| && (Valid(State()) <==> |done| == |ops|)
      ensures IsTrace(trace, ops, done) && trace[0] == old(State()) && (|done| == |ops| ==> trace[|done|] == State())
      ensures |done| == |ops| ==> forall id :: Content(State(), id) == Replay(size, ops, done, id, Content(old(State()), id))
      ensures |done| == |ops| ==> forall id :: Pins(State(), id) == PinReplay(ops, done, id, Pins(old(State()), id))
    {
      done, trace := [], [State()];
      for i := 0 to |ops|
        invariant Valid(State()) && stale == {} && |done| == i && IsTrace(trace, ops, done)
        invariant trace[0] == old(State()) && trace[i] == State()
        invariant forall id :: Content(State(), id) == Replay(size, ops[..i], done, id, Content(old(State()), id))
        invariant forall id :: Pins(State(), id) == PinReplay(ops[..i], done, id, Pins(old(State()), id))
      {
        ghost var before := State();
        var ok := Perform(ops[i]);
        if ok.None? { return; }
        forall id ensures Content(State(), id) == Replay(size, ops[..i + 1], done + [ok.value], id, Content(old(State()), id)) {
          ReplayStep(size, ops, i, done, ok.value, id, Content(old(State()), id));
          assert Content(before, id) == Replay(size, ops[..i], done, id, Content(old(State()), id));
        }
        forall id ensures Pins(State(), id) == PinReplay(ops[..i + 1], done + [ok.value], id, Pins(old(State()), id)) {
          PinReplayStep(ops, i, done, ok.value, id, Pins(old(State()), id));
          assert Pins(before, id) == PinReplay(ops[..i], done, id, Pins(old(State()), id));
        }
        TraceStep(trace, ops, done, ok.value, State());
        done, trace := done + [ok.value], trace + [State()];
      }
      assert ops[..|ops|] == ops;
    }

    /** One client operation, and whether it was done; nothing when the page's file does not exist. */
    method Perform(op: Op) returns (ok: Option<bool>)
      requires Valid(State()) && stale == {}
      modifies this
      ensures Valid(State()) <==> ok.Some?
      ensures ok.None? <==> MissesFile(old(State()), op)
      ensures ok.Some? ==> stale == {} && (ok.value <==> !Refuses(old(State()), op))
      ensures ok.Some? ==> forall id :: Content(State(), id) == Effect(size, op, ok.value, id, Content(old(State()), id))
      ensures ok.Some? ==> forall id :: Pins(State(), id) == PinEffect(op, ok.value, id, Pins(old(State()), id))
    {
      match op
      case PinPage(id) =>
        var r := Pin(id);
        return if r.NoFile? then None else Some(r.Pinned?);
      case AllocatePage(id) =>
        var r := Allocate(id);
        return Some(r.Some?);
      case WritePage(id, data) =>
        var done := WriteIfPinned(id, data);
        return Some(done);
      case UnpinPage(id) =>
        var done := UnpinIfCached(id);
        return Some(done);
      case FlushPages =>
        FlushAll();
        return Some(true);
    }

    method WriteIfPinned(id: PageId, data: Data) returns (done: bool)
      requires Valid(State()) && stale == {}
      modifies this
      ensures Valid(State()) && stale == {} && (done <==> Pins(old(State()), id) > 0)
      ensures forall x :: Content(State(), x) == if done && x == id then data else Content(old(State()), x)
      ensures forall x :: Pins(State(), x) == Pins(old(State()), x)
    {
      if id !in table || frames[table[id]].pins == 0 { return false; }
      Write(table[id], data);
      return true;
    }

    method UnpinIfCached(id: PageId) returns (done: bool)
      requires Valid(State()) && stale == {}
      modifies this
      ensures Valid(State()) && stale == {} && (done <==> id in old(table))
      ensures forall x :: Content(State(), x) == Content(old(State()), x)
      ensures forall x :: Pins(State(), x) == PinEffect(UnpinPage(id), done, x, Pins(old(State()), x))
    {
      if id !in table { return false; }
      Unpin(table[id]);
      return true;
    }

    /** Writes a dirty page back. */
    method FlushFrame(f: nat)
      requires f < |frames|
      modifies this
      ensures State() == Flushed(old(State()), f)
    {
      var frame := frames[f];
      if frame.dirty && frame.page.Some? {
        disk := Disk(disk.files + {frame.page.value.file}, disk.pages[frame.page.value := frame.data]);
        frames := frames[f := frame.(dirty := false)];
      }
    }
  }

  /** The state after a victim at `hand` is found and given up. */
  function Evicted(p: Pool, frames: seq<Frame>, hand: nat): Pool
    requires hand < |frames|
  {
    var q := Flushed(p.(frames := frames, hand := hand), hand);
    (if frames[hand].page.Some? then Unmapped(q, hand) else q).(hand := Step(hand, |frames|))
  }

  lemma EvictDetaches(p: Pool, frames: seq<Frame>, hand: nat)
    requires Valid(p) && p.free == [] && UsageOnly(p.frames, frames) && hand < |frames| && frames[hand].pins == 0
    ensures TakenOut(p, Evicted(p, frames, hand), hand)
  {
    EvictKeepsContent(p, frames, hand);
    EvictKeepsPins(p, frames, hand);
  }

  lemma EvictKeepsContent(p: Pool, frames: seq<Frame>, hand: nat)
    requires Valid(p) && p.free == [] && UsageOnly(p.frames, frames) && hand < |frames| && frames[hand].pins == 0
    ensures Detached(Evicted(p, frames, hand), hand) && SameContent(p, Evicted(p, frames, hand))
  {
    UsageKeeps(p, frames, hand);
    var swept := p.(frames := frames, hand := hand);
    assert FrameOk(swept, hand);
    FlushKeeps(swept, hand);
    var flushed := Flushed(swept, hand);
    UnmapDetaches(flushed, hand);
    StepIs(hand, |frames|);
    DetachedAnyHand(Unmapped(flushed, hand), hand, Step(hand, |frames|));
    SameContentTwice(p, swept, flushed, Unmapped(flushed, hand), Evicted(p, frames, hand));
  }

  lemma EvictKeepsPins(p: Pool, frames: seq<Frame>, hand: nat)
    requires Valid(p) && p.free == [] && UsageOnly(p.frames, frames) && hand < |frames| && frames[hand].pins == 0
    ensures var q := Evicted(p, frames, hand);
      && PinnedStay(p, q) && q.table.Keys <= p.table.Keys && p.disk.files <= q.disk.files
      && p.frames[hand].pins == 0 && SamePins(p.frames, q.frames)
      && (forall x | x in q.table :: q.table[x] == p.table[x])
      && (q.frames[hand].page.Some? ==> q.frames[hand].page.value in p.table)
  {
    assert FrameOk(p, hand);
  }

  lemma SameContentTwice(p: Pool, q: Pool, r: Pool, s: Pool, t: Pool)
    requires SameContent(p, q) && SameContent(q, r) && SameContent(r, s) && SameContent(s, t)
    ensures SameContent(p, t)
  {
    forall id | id !in p.stale ensures Content(t, id) == Content(p, id) {
      assert Content(q, id) == Content(p, id) && Content(r, id) == Content(q, id);
      assert Content(s, id) == Content(r, id) && Content(t, id) == Content(s, id);
    }
  }

  lemma DetachedAnyHand(p: Pool, f: nat, hand: nat)
    requires Detached(p, f) && hand < |p.frames|
    ensures Detached(p.(hand := hand), f) && SameContent(p, p.(hand := hand))
  {
    forall g | 0 <= g < |p.frames| && g != f ensures FrameOk(p.(hand := hand), g) { assert FrameOk(p, g); }
  }

  /** Pin and usage counts are nobody's content. */
  lemma UseKeeps(p: Pool, f: nat, frame: Frame)
    requires Valid(p) && f < |p.frames| && p.frames[f].page.Some? && frame.usage <= 1
    requires frame == p.frames[f].(pins := frame.pins, usage := frame.usage)
    ensures Valid(Changed(p, f, frame)) && SameContent(p, Changed(p, f, frame)) && PinnedStay(p, Changed(p, f, frame))
  {
    var q := Changed(p, f, frame);
    forall g | 0 <= g < |q.frames| ensures FrameOk(q, g) { assert FrameOk(p, g); }
  }

  /** Taking a frame out and giving it to a page changes the pins of that page only. */
  lemma TakenAndAttachedPins(start: Pool, p: Pool, f: nat, id: PageId, frame: Frame)
    requires Valid(start) && TakenOut(start, p, f) && id !in start.table && frame.pins == 1
    ensures PinnedOnce(start, Attached(p, f, id, frame), id)
  {
    var q := Attached(p, f, id, frame);
    forall x ensures Pins(q, x) == Pins(start, x) + if x == id then 1 else 0 {
      if x in start.table && start.frames[start.table[x]].pins > 0 {
        assert FrameOk(p, start.table[x]);
      }
    }
  }

  lemma LoadKeeps(start: Pool, p: Pool, f: nat, id: PageId)
    requires Valid(start) && TakenOut(start, p, f) && id !in start.table && id.file in p.disk.files
    ensures var q := Attached(p, f, id, Frame(Some(id), OnDisk(p, id), false, 1, 1));
      Valid(q) && SameContent(start, q) && PinnedStay(start, q)
  {
    AttachKeeps(p, f, id, Frame(Some(id), OnDisk(p, id), false, 1, 1));
  }

  /** The table points to a frame that names no page, or another one. */
  lemma MissingFileBreaks(start: Pool, p: Pool, f: nat, id: PageId)
    requires Valid(start) && TakenOut(start, p, f) && id !in start.table
    ensures !Valid(Attached(p, f, id, p.frames[f].(pins := 1, usage := 1)))
  {
    var q := Attached(p, f, id, p.frames[f].(pins := 1, usage := 1));
    assert id in q.table && q.frames[q.table[id]].page != Some(id);
  }

  // ---- Replacing a file ----

  /** One page was dropped, or kept because it is pinned. */
  ghost predicate Dropped(p: Pool, q: Pool, id: PageId)
    requires Indexed(p) && id in p.table
  {
    && Valid(q) && PinnedStay(p, q) && SamePins(p.frames, q.frames) && q.disk == p.disk
    && (if p.frames[p.table[id]].pins == 0 then q.table == p.table - {id} && q.stale == p.stale - {id}
        else q.table == p.table && q.stale == p.stale)
    && forall x | x != id :: Content(q, x) == Content(p, x)
  }

  /** While a file is evicted: its pages that are still cached are pinned, or to do. */
  ghost predicate Evicting(start: Pool, p: Pool, file: string, todo: set<PageId>) {
    && Valid(p) && PinnedStay(start, p) && SamePins(start.frames, p.frames)
    && todo <= p.table.Keys && todo <= p.stale && (forall id | id in todo :: id.file == file)
    && (forall id | id in p.table :: id in start.table && p.table[id] == start.table[id])
    && (forall id | id in p.table && id.file == file && id !in todo :: p.frames[p.table[id]].pins > 0)
    && (forall id: PageId | id.file != file :: Content(p, id) == Content(start, id))
    && (forall id | id in p.stale :: id in start.stale || id.file == file)
  }

  lemma EvictStep(start: Pool, p: Pool, q: Pool, file: string, todo: set<PageId>, id: PageId)
    requires Evicting(start, p, file, todo) && id in todo && Dropped(p, q, id)
    ensures Evicting(start, q, file, todo - {id})
  {
  }

  ghost predicate SameElsewhere(d: Disk, e: Disk, file: string) {
    && (forall id: PageId | id.file != file :: id in d.pages <==> id in e.pages)
    && (forall id: PageId | id.file != file && id in d.pages :: e.pages[id] == d.pages[id])
    && (forall name | name != file :: name in d.files <==> name in e.files)
  }

  lemma ReplaceKeeps(p: Pool, disk: Disk, file: string, todo: set<PageId>)
    requires Valid(p) && SameElsewhere(p.disk, disk, file) && todo == set id | id in p.table && id.file == file
    ensures var q := p.(disk := disk, stale := p.stale + todo);
      Valid(q) && forall id: PageId | id.file != file :: Content(q, id) == Content(p, id)
  {
    var q := p.(disk := disk, stale := p.stale + todo);
    forall f | 0 <= f < |q.frames| ensures FrameOk(q, f) {
      assert FrameOk(p, f);
    }
  }

  /** The frame of an unpinned page goes back to the free list. */
  function Freed(p: Pool, f: nat): Pool
    requires f < |p.frames| && p.frames[f].page.Some?
  {
    var id := p.frames[f].page.value;
    p.(frames := p.frames[f := p.frames[f].(page := None, dirty := false, usage := 0)],
       table := p.table - {id}, free := p.free + [f], stale := p.stale - {id})
  }

  lemma FreeKeeps(p: Pool, f: nat)
    requires Valid(p) && f < |p.frames| && p.frames[f].page.Some? && p.frames[f].pins == 0
    ensures Valid(Freed(p, f)) && forall x | Some(x) != p.frames[f].page :: Content(Freed(p, f), x) == Content(p, x)
  {
    var q := Freed(p, f);
    assert FrameOk(p, f) && f !in p.free;
    forall g | 0 <= g < |q.frames| ensures FrameOk(q, g) {
      assert FrameOk(p, g);
    }
    assert forall g :: g in q.free <==> g in p.free || g == f;
  }

  lemma CleanKeeps(p: Pool, f: nat)
    requires Valid(p) && f < |p.frames| && p.frames[f].page.Some? && p.frames[f].page.value in p.stale
    ensures var q := Changed(p, f, p.frames[f].(dirty := false));
      Valid(q) && forall x :: Content(q, x) == Content(p, x)
  {
    var q := Changed(p, f, p.frames[f].(dirty := false));
    forall g | 0 <= g < |q.frames| ensures FrameOk(q, g) {
      assert FrameOk(p, g);
    }
  }

  // ---- Runs ----

  datatype Op =
    | PinPage(id: PageId) | AllocatePage(id: PageId) | WritePage(id: PageId, data: Data) | UnpinPage(id: PageId) | FlushPages

  /** What an operation means for one page: only a write to it and its allocation change it. */
  function Effect(size: nat, op: Op, done: bool, id: PageId, content: Data): Data {
    if !done then content
    else match op
      case AllocatePage(x) => if x == id then Zeros(size) else content
      case WritePage(x, data) => if x == id then data else content
      case _ => content
  }

  function Replay(size: nat, ops: seq<Op>, done: seq<bool>, id: PageId, content: Data): Data
    requires |ops| == |done|
  {
    if ops == [] then content else
    var n := |ops| - 1;
    Effect(size, ops[n], done[n], id, Replay(size, ops[..n], done[..n], id, content))
  }

  /** What an operation means for the pins of one page. */
  function PinEffect(op: Op, done: bool, id: PageId, pins: nat): nat {
    if !done then pins
    else match op
      case PinPage(x) => if x == id then pins + 1 else pins
      case AllocatePage(x) => if x == id then pins + 1 else pins
      case UnpinPage(x) => if x == id && pins > 0 then pins - 1 else pins
      case _ => pins
  }

  function PinReplay(ops: seq<Op>, done: seq<bool>, id: PageId, pins: nat): nat
    requires |ops| == |done|
  {
    if ops == [] then pins else
    var n := |ops| - 1;
    PinEffect(ops[n], done[n], id, PinReplay(ops[..n], done[..n], id, pins))
  }

  /** A page needs a frame and there is none; or a client writes or unpins a page it has not pinned. */
  ghost predicate Refuses(p: Pool, op: Op) {
    match op
    case PinPage(id) => id !in p.table && AllPinned(p)
    case AllocatePage(id) => id !in p.table && AllPinned(p)
    case WritePage(id, _) => Pins(p, id) == 0
    case UnpinPage(id) => id !in p.table
    case FlushPages => false
  }

  ghost predicate IsTrace(trace: seq<Pool>, ops: seq<Op>, done: seq<bool>) {
    && |done| <= |ops| && |trace| == |done| + 1
    && forall i | 0 <= i < |done| :: done[i] <==> !Refuses(trace[i], ops[i])
  }

  lemma TraceStep(trace: seq<Pool>, ops: seq<Op>, done: seq<bool>, ok: bool, p: Pool)
    requires IsTrace(trace, ops, done) && |done| < |ops| && (ok <==> !Refuses(trace[|done|], ops[|done|]))
    ensures IsTrace(trace + [p], ops, done + [ok])
  {
  }

  lemma PinReplayStep(ops: seq<Op>, i: nat, done: seq<bool>, ok: bool, id: PageId, pins: nat)
    requires i < |ops| && |done| == i
    ensures PinReplay(ops[..i + 1], done + [ok], id, pins) == PinEffect(ops[i], ok, id, PinReplay(ops[..i], done, id, pins))
  {
    assert ops[..i + 1][..i] == ops[..i] && (done + [ok])[..i] == done;
  }

  lemma ReplayStep(size: nat, ops: seq<Op>, i: nat, done: seq<bool>, ok: bool, id: PageId, content: Data)
    requires i < |ops| && |done| == i
    ensures Replay(size, ops[..i + 1], done + [ok], id, content) ==
      Effect(size, ops[i], ok, id, Replay(size, ops[..i], done, id, content))
  {
    assert ops[..i + 1][..i] == ops[..i] && (done + [ok])[..i] == done;
  }

  /** A pool of one frame with page 0 of file "a"; pinning a page of the missing file "b" then serves the data of "a". */
  lemma MissingFileServesOtherPage(data: Data)
    ensures var a, b := PageId("a", 0), PageId("b", 0);
      var p := Pool(|data|, [Frame(Some(a), data, false, 0, 0)], map[a := 0], [], 0, Disk({"a"}, map[a := data]), {});
      var q := Attached(Evicted(p, p.frames, 0), 0, b, p.frames[0].(pins := 1, usage := 1));
      Valid(p) && !Valid(q) && b.file !in q.disk.files && Content(q, b) == data
  {
    var a, b := PageId("a", 0), PageId("b", 0);
    var p := Pool(|data|, [Frame(Some(a), data, false, 0, 0)], map[a := 0], [], 0, Disk({"a"}, map[a := data]), {});
    assert FrameOk(p, 0);
    EvictDetaches(p, p.frames, 0);
    MissingFileBreaks(p, Evicted(p, p.frames, 0), 0, b);
  }
}
