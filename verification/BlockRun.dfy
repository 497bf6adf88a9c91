/**
 * Runs of block I/O requests and resets on one drive (BlockIoDxe/BiosInt13.c): what a media ID is worth after
 * the disk was changed, and what an error code does to the requests after it.
 */
module BlockRun {
  import opened MachineWords
  import opened BlockPlan
  import opened BlockIo
  import opened Chs

  datatype Op = Io(request: Request) | ResetDrive

  // What a caller can see between two operations
  datatype State = State(disk: seq<Block>, media: Media, errorCode: nat, buffer: seq<Block>)

  datatype Event = Event(op: Op, before: State, status: Status, made: seq<Call>, after: State)

  // What one operation may do to the state
  ghost predicate Lawful(i: Interface, e: Event) {
    match e.op
    case ResetDrive =>
      && e.made == [] && e.after == e.before.(errorCode := e.after.errorCode)
      && (e.status != DeviceError ==> e.after.errorCode == e.before.errorCode)
    case Io(r) =>
      && (r.mediaId == e.before.media.id && r.lba <= e.before.media.lastBlock ==> e.before.media.blockSize > 0)
      && var d := Decide(i, e.before.media, e.before.errorCode, r);
         if d != Admitted then d == Refused(e.status) && e.made == [] && e.after == e.before else LawfulIo(r, e)
  }

  // What an admitted request may do
  ghost predicate LawfulIo(r: Request, e: Event) {
    && e.made != [] && (e.status == Success <==> !Failed(e.made))
    && (forall k :: 0 <= k < |e.made| - 1 ==> !e.made[k].carry)
    && e.after.media.id == (if Detected(e.made) then NextId(e.before.media.id) else e.before.media.id)
    && (!Failed(e.made) ==> e.after.errorCode == e.before.errorCode)
    && (Failed(e.made) && !Detected(e.made) ==> e.after.errorCode == e.made[|e.made| - 1].ah)
    && (if r.writing then e.after.buffer == e.before.buffer else !Detected(e.made) ==> e.after.disk == e.before.disk)
  }

  // A run: each operation starts where the one before it ended.
  ghost predicate Run(i: Interface, t: seq<Event>) {
    && (forall k :: 0 <= k < |t| ==> Lawful(i, t[k]))
    && forall k :: 0 < k < |t| ==> t[k].before == t[k - 1].after
  }

  // ---------- media IDs ----------

  // How often another disk was detected from operation a on, before operation l.
  function Changes(t: seq<Event>, a: nat, l: nat): nat
    requires a <= l <= |t|
    decreases l
  {
    if a == l then 0 else Changes(t, a, l - 1) + if Detected(t[l - 1].made) then 1 else 0
  }

  // The media IDs of a run
  ghost predicate CountsIds(t: seq<Event>) {
    forall k :: 0 < k < |t| ==> t[k].before.media.id == IdAfter(t[k - 1])
  }

  ghost function IdAfter(e: Event): nat {
    if Detected(e.made) then NextId(e.before.media.id) else e.before.media.id
  }

  lemma RunCountsIds(i: Interface, t: seq<Event>)
    requires Run(i, t)
    ensures CountsIds(t)
  {
    forall k | 0 < k < |t| ensures t[k].before.media.id == IdAfter(t[k - 1]) {
      LawfulId(i, t[k - 1]);
    }
  }

  lemma LawfulId(i: Interface, e: Event)
    requires Lawful(i, e)
    ensures e.after.media.id == IdAfter(e)
  {
  }

  // The ID n changes later
  function Later(id: nat, n: nat): nat { if n == 0 then id else NextId(Later(id, n - 1)) }

  lemma {:induction false} LaterIs(id: nat, n: nat)
    requires id < 0x1_0000_0000 && n <= 0x1_0000_0000
    ensures Later(id, n) == if id + n < 0x1_0000_0000 then id + n else id + n - 0x1_0000_0000
  {
    if n > 0 {
      LaterIs(id, n - 1);
    }
  }

  /** The media ID counts the changes. */
  lemma {:induction false} IdCounts(t: seq<Event>, a: nat, l: nat)
    requires CountsIds(t) && a <= l < |t|
    ensures t[l].before.media.id == Later(t[a].before.media.id, Changes(t, a, l))
    decreases l
  {
    if a < l {
      IdCounts(t, a, l - 1);
    }
  }

  /**
   * With fewer than 2^32 changes an ID that was current before operation a is current at l just if none came in
   * between.
   */
  lemma CurrentIff(i: Interface, t: seq<Event>, a: nat, l: nat)
    requires Run(i, t) && a <= l < |t| && t[a].before.media.id < 0x1_0000_0000 && Changes(t, a, l) < 0x1_0000_0000
    ensures t[l].before.media.id == t[a].before.media.id <==> Changes(t, a, l) == 0
  {
    RunCountsIds(i, t);
    IdCounts(t, a, l);
    LaterIs(t[a].before.media.id, Changes(t, a, l));
  }

  /** After 2^32 changes it is current again. */
  lemma ComesAround(i: Interface, t: seq<Event>, a: nat, l: nat)
    requires Run(i, t) && a <= l < |t| && t[a].before.media.id < 0x1_0000_0000 && Changes(t, a, l) == 0x1_0000_0000
    ensures t[l].before.media.id == t[a].before.media.id
  {
    RunCountsIds(i, t);
    IdCounts(t, a, l);
    LaterIs(t[a].before.media.id, Changes(t, a, l));
  }

  /**
   * No I/O is done for a media ID from before a change of disk, as long as there were fewer than 2^32 changes: the
   * request is told so, no call is made, and disk and buffer are left alone.
   */
  lemma StaleDoesNoIo(i: Interface, t: seq<Event>, a: nat, l: nat)
    requires Run(i, t) && a <= l < |t| && t[a].before.media.id < 0x1_0000_0000
    requires t[l].op.Io? && t[l].op.request.mediaId == t[a].before.media.id
    requires 0 < Changes(t, a, l) < 0x1_0000_0000
    ensures t[l].made == [] && t[l].status == MediaChanged && t[l].after == t[l].before
  {
    CurrentIff(i, t, a, l);
    assert Lawful(i, t[l]);
  }

  // ---------- error codes ----------

  // A reset that fails and leaves another error code than the fatal ones.
  predicate Clears(e: Event) { e.op.ResetDrive? && e.status == DeviceError && !Fatal(e.after.errorCode) }

  /** A fatal error code lasts exactly as long as no reset fails with another code. */
  lemma {:induction false} StuckIff(i: Interface, t: seq<Event>, a: nat, l: nat)
    requires Run(i, t) && a <= l < |t| && Fatal(t[a].before.errorCode)
    ensures (forall m :: a <= m <= l ==> Fatal(t[m].before.errorCode)) <==> (forall m :: a <= m < l ==> !Clears(t[m]))
    decreases l
  {
    if a < l {
      StuckIff(i, t, a, l - 1);
      assert Lawful(i, t[l - 1]) && t[l].before == t[l - 1].after;
      if Fatal(t[l - 1].before.errorCode) {
        FatalAfterIff(i, t[l - 1]);
      }
    }
  }

  lemma FatalAfterIff(i: Interface, e: Event)
    requires Lawful(i, e) && Fatal(e.before.errorCode)
    ensures Fatal(e.after.errorCode) <==> !Clears(e)
  {
  }

  // A request in order: for at least one block, all on the disk, by the current media ID.
  predicate InOrder(m: Media, r: Request) {
    && m.blockSize > 0 && r.mediaId == m.id && r.buffer && r.bufferSize % m.blockSize == 0
    && 0 < r.bufferSize / m.blockSize && r.lba + r.bufferSize / m.blockSize <= m.lastBlock + 1
  }

  /** I/O is done for a request in order exactly when the error code is not fatal, and otherwise nothing changes. */
  lemma DoesIoIff(i: Interface, e: Event)
    requires Lawful(i, e) && e.op.Io? && InOrder(e.before.media, e.op.request)
    requires e.before.media.lastBlock < TWO64 / 2 && e.op.request.bufferSize / e.before.media.blockSize < TWO64 / 2
    ensures e.made != [] <==> !Fatal(e.before.errorCode)
    ensures Fatal(e.before.errorCode) ==> e.status == DeviceError && e.after == e.before
  {
    AdmittedIff(i, e.before.media, e.before.errorCode, e.op.request);
  }

  /** While no reset clears it, every read and write after a fatal error is refused and changes nothing. */
  lemma StuckDoesNoIo(i: Interface, t: seq<Event>, a: nat, l: nat)
    requires Run(i, t) && a <= l < |t| && Fatal(t[a].before.errorCode) && t[l].op.Io?
    requires forall m :: a <= m < l ==> !Clears(t[m])
    ensures t[l].made == [] && t[l].after == t[l].before
  {
    StuckIff(i, t, a, l);
    assert Fatal(t[l].before.errorCode) && Lawful(i, t[l]);
  }

  // ---------- the run itself ----------

  ghost function Seen(d: Drive, buffer: array<Block>): State
    reads d, buffer
  {
    State(d.world.disk, d.media, d.errorCode, buffer[..])
  }

  // Every disk that the firmware identifies has blocks of a size, and a geometry, that the interface can work with.
  ghost predicate Dependable(f: Firmware, i: Interface) {
    forall w :: f.identify(w).answers ==> UsableIdentity(i, f.identify(w))
  }

  ghost predicate UsableIdentity(i: Interface, id: Identity) {
    if id.extensions then id.blockSize >= 255 && Usable(i, id.geometry, id.blockSize)
    else i == Legacy ==> Usable(i, id.geometry, 512)
  }

  ghost predicate Ready(d: Drive)
    reads d
  {
    d.Valid() && d.media.blockSize >= 255 && Dependable(d.firmware, d.interface)
  }

  lemma StillReady(d: Drive, blockSize: nat)
    requires Honest(d.firmware) && Dependable(d.firmware, d.interface) && blockSize >= 255
    requires d.Identified(blockSize) && (d.interface != Legacy ==> blockSize <= 0xfe00)
    ensures Ready(d)
  {
    var id := d.firmware.identify(d.world);
    assert UsableIdentity(d.interface, id);
    if d.interface == Legacy {
      ReachPositive(d.geometry);
    }
  }

  lemma FewerBlocks(bufferSize: nat, blockSize: nat)
    requires blockSize >= 255
    ensures bufferSize / blockSize <= bufferSize / 255
  {
    var q := bufferSize / blockSize;
    assert q * blockSize <= bufferSize;
    assert q * 255 <= q * blockSize;
  }

  // One operation
  method ServeOne(d: Drive, buffer: array<Block>, op: Op) returns (ghost e: Event)
    requires Ready(d) && (op.Io? ==> op.request.bufferSize < TWO64 / 2 && op.request.bufferSize / 255 <= buffer.Length)
    modifies d, buffer
    ensures Ready(d) && e.op == op && e.before == old(Seen(d, buffer)) && e.after == Seen(d, buffer)
    ensures Lawful(d.interface, e)
  {
    ghost var before, size := Seen(d, buffer), d.media.blockSize;
    var status;
    ghost var done, made := 0, [];
    match op {
      case ResetDrive =>
        status := d.Reset();
      case Io(r) =>
        FewerBlocks(r.bufferSize, d.media.blockSize);
        var given := if r.buffer then buffer else null;
        if r.writing {
          status, done, made := d.WriteBlocks(r.mediaId, r.lba, r.bufferSize, given);
        } else {
          status, done, made := d.ReadBlocks(r.mediaId, r.lba, r.bufferSize, given);
        }
        if made != [] && status == MediaChanged {
          StillReady(d, size);
        }
    }
    e := Event(op, before, status, made, Seen(d, buffer));
  }

  lemma RunAppend(i: Interface, t: seq<Event>, e: Event)
    requires Run(i, t) && Lawful(i, e) && (t != [] ==> e.before == t[|t| - 1].after)
    ensures Run(i, t + [e])
  {
  }

  /**
   * Every run of requests, with current and old media IDs, and of resets is such a run, whatever the firmware
   * answers.
   */
  method Serve(d: Drive, buffer: array<Block>, ops: seq<Op>) returns (ghost t: seq<Event>)
    requires Ready(d)
    requires forall op <- ops :: op.Io? ==>
      op.request.bufferSize < TWO64 / 2 && op.request.bufferSize / 255 <= buffer.Length
    modifies d, buffer
    ensures Ready(d) && Run(d.interface, t) && |t| == |ops| && forall k :: 0 <= k < |t| ==> t[k].op == ops[k]
    ensures ops != [] ==> t[0].before == old(Seen(d, buffer)) && t[|t| - 1].after == Seen(d, buffer)
  {
    t := [];
    var i := 0;
    while i < |ops|
      invariant 0 <= i == |t| <= |ops| && Ready(d) && Run(d.interface, t)
      invariant forall k :: 0 <= k < i ==> t[k].op == ops[k]
      invariant if i == 0 then Seen(d, buffer) == old(Seen(d, buffer))
                else t[0].before == old(Seen(d, buffer)) && t[i - 1].after == Seen(d, buffer)
    {
      assert ops[i] in ops;
      ghost var e := ServeOne(d, buffer, ops[i]);
      RunAppend(d.interface, t, e);
      t := t + [e];
      i := i + 1;
    }
  }
}
