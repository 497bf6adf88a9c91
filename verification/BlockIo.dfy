/**
 * Block I/O through INT 13h (BlockIoDxe/BiosInt13.c).
 *
 * The firmware may fail, repeat, report a changed disk, or leave anything in the place of a piece that failed.
 * The contracts relate a whole request to the blocks of one disk.
 */
module BlockIo {
  import opened MachineWords
  import opened Wrappers
  import opened BlockPlan
  import opened Chs
  import opened Raster

  // The disk, and whatever else the firmware's behaviour depends on.
  datatype World = World(disk: seq<Block>, rest: int)

  // What a call leaves in the carry flag, in AH and in the transfer buffer.
  datatype Answer = Answer(carry: bool, ah: nat, data: seq<Block>)

  // What a reset leaves in the carry flag, in AH and in AL.
  datatype Reply = Reply(carry: bool, ah: nat, al: nat)

  // What Int13GetDeviceParameters and Int13Extensions find out about a drive; `code` is what those of their calls that
  // failed left as the error code.
  datatype Identity = Identity(answers: bool, geometry: Geometry, extensions: bool, sectors: nat, blockSize: nat,
                               code: Option<nat>)

  datatype Firmware = Firmware(read: (World, nat, nat) -> (World, Answer),
                               write: (World, nat, seq<Block>) -> (World, Answer),
                               reset: World -> (World, Reply),
                               identify: World -> Identity)

  predicate Changed(a: Answer) { a.carry && a.ah == DISK_CHANGED }

  // A call that succeeds has done what was asked; one that fails has changed nothing outside the blocks asked
  // for, unless it reports another disk.
  ghost predicate HonestRead(w: World, lba: nat, n: nat, result: (World, Answer)) {
    && |result.1.data| == n
    && (!Changed(result.1) ==> result.0.disk == w.disk)
    && (!result.1.carry && lba + n <= |w.disk| ==> result.1.data == w.disk[lba..lba + n])
  }

  ghost predicate HonestWrite(w: World, lba: nat, data: seq<Block>, result: (World, Answer)) {
    && (!Changed(result.1) ==> SameOutside(w.disk, result.0.disk, lba, |data|))
    && (!result.1.carry && lba + |data| <= |w.disk| ==> result.0.disk == Splice(w.disk, lba, data))
  }

  ghost predicate Honest(f: Firmware) {
    && (forall w, lba, n :: HonestRead(w, lba, n, f.read(w, lba, n)))
    && (forall w, lba, data :: HonestWrite(w, lba, data, f.write(w, lba, data)))
    && forall w :: f.reset(w).0.disk == w.disk
  }

  // A write repeated after a failed one comes to the same.
  lemma WrittenAgain(before: seq<Block>, mid: seq<Block>, lba: nat, data: seq<Block>)
    requires SameOutside(before, mid, lba, |data|)
    ensures lba + |data| <= |before| ==> Splice(mid, lba, data) == Splice(before, lba, data)
    ensures forall after :: SameOutside(mid, after, lba, |data|) ==> SameOutside(before, after, lba, |data|)
  {
    if lba + |data| <= |before| {
      forall j | 0 <= j < |before| ensures Splice(mid, lba, data)[j] == Splice(before, lba, data)[j] {
        SpliceIndex(mid, lba, data, j);
        SpliceIndex(before, lba, data, j);
      }
    }
  }

  // What a read of a job that was admitted leaves: disk, buffer and calls
  ghost predicate ReadOutcome(j: Job, status: Status, done: nat, made: seq<Call>, described: bool,
                              disk: seq<Block>, disk': seq<Block>, buffer: seq<Block>, buffer': seq<Block>) {
    && UsableJob(j) && Follows(made, Pieces(j), Most(j.interface))
    && (if status == Success then done == j.n && |made| == |Pieces(j)| else done < j.n)
    && (!Detected(made) ==> disk' == disk)
    && (described ==>
          ReadSoFar(j, disk, buffer, buffer', done,
                    if status != Success && j.interface == Edd30 then j.n - done else 0))
    && (described && Direct(j) && status == Success ==>
          j.lba + j.n <= |disk| && buffer'[..j.n] == disk[j.lba..j.lba + j.n])
  }

  // The same of a write
  ghost predicate WriteOutcome(j: Job, status: Status, done: nat, made: seq<Call>, described: bool,
                               disk: seq<Block>, disk': seq<Block>, data: seq<Block>) {
    && UsableJob(j) && Follows(made, Pieces(j), Most(j.interface)) && j.n <= |data|
    && (if status == Success then done == j.n && |made| == |Pieces(j)| else done < j.n)
    && (described && !Detected(made) ==>
          exists more :: 0 <= more <= j.n - done && WrittenSoFar(j, disk, disk', data, done, more))
    && (described && Direct(j) && status == Success ==>
          j.lba + j.n <= |disk| && disk' == Splice(disk, j.lba, data[..j.n]))
  }

  // A write of a job and a read of the same job, both successful
  lemma WrittenAndRead(j: Job, sent: seq<Call>, got: seq<Call>, disk: seq<Block>, now: seq<Block>, end: seq<Block>,
                       data: seq<Block>, before: seq<Block>, after: seq<Block>)
    requires WriteOutcome(j, Success, j.n, sent, true, disk, now, data) && !Detected(sent)
    requires ReadOutcome(j, Success, j.n, got, true, now, end, before, after) && !Detected(got)
    ensures WrittenSoFar(j, disk, end, data, j.n, 0)
    ensures forall b :: 0 <= b < j.n && Spares(j, b + 1, j.n, Place(j, b)) ==> after[b] == data[b]
    ensures (j.interface == Legacy ==> j.n <= j.reach) ==> after[..j.n] == data[..j.n]
    ensures Direct(j) ==> end == Splice(disk, j.lba, data[..j.n])
  {
    ReadBackWritten(j, disk, now, data, before, after);
  }

  // A write is said to be write-protected just if its last call was told so.
  predicate Protected(made: seq<Call>, status: Status) {
    status == WriteProtected <==> Failed(made) && made[|made| - 1].ah == WRITE_PROTECTED
  }

  class Drive {
    const interface: Interface
    const firmware: Firmware
    var world: World
    var media: Media
    var errorCode: nat
    var geometry: Geometry

    ghost predicate Valid()
      reads this
    {
      Honest(firmware) && Usable(interface, geometry, media.blockSize) && (interface == Legacy ==> Reach(geometry) > 0)
    }

    // The media describe the disk that is there.
    ghost predicate Described()
      reads this
    {
      |world.disk| == media.lastBlock + 1 < TWO64 / 2
    }

    // One call of the firmware for a piece, over a legacy interface up to three
    method CallRead(lba: nat, count: nat) returns (a: Answer, ghost attempts: nat)
      requires Valid() && 0 < count < 256
      modifies this`world
      ensures |a.data| == count && Tried(attempts, Most(interface), a.carry, a.ah)
      ensures !Changed(a) ==> world.disk == old(world.disk)
      ensures var at := Where(interface, Reach(geometry), lba);
        !a.carry && at + count <= |world.disk| ==> a.data == world.disk[at..at + count]
    {
      if interface == Legacy {
        a, attempts := LegacyRead(lba, count);
      } else {
        assert HonestRead(world, lba, count, firmware.read(world, lba, count));
        var (w, answer) := firmware.read(world, lba, count % 0x100);
        world, a, attempts := w, answer, 1;
      }
    }

    // The block that registers name to the firmware
    function Named(r: Registers): nat
      reads this
    {
      var lba := Join(geometry, Decode(r));
      if lba < 0 then 0 else lba
    }

    // The registers for a block; the comparison never fails.
    method Locate(lba: nat) returns (r: Registers)
      requires Encodable(geometry)
      ensures Named(r) == Wrapped(lba, Reach(geometry))
    {
      var address := Split(geometry, lba);
      JoinSplit(geometry, lba);
      AddressedWraps(geometry, lba);
      if Join(geometry, address) != lba {
        assert false;
      }
      r := Encode(address);
    }

    // INT 13h, functions 2 and 3
    method Int13Read(r: Registers, count: nat) returns (a: Answer)
      requires Honest(firmware) && 0 < count < 256
      modifies this`world
      ensures HonestRead(old(world), Named(r), count, (world, a))
    {
      var at := Named(r);
      var (w, answer) := firmware.read(world, at, count % 0x100);
      assert HonestRead(world, at, count, firmware.read(world, at, count));
      world, a := w, answer;
    }

    method Int13Write(r: Registers, data: seq<Block>) returns (a: Answer)
      requires Honest(firmware) && 0 < |data| < 256
      modifies this`world
      ensures HonestWrite(old(world), Named(r), data, (world, a))
    {
      var at := Named(r);
      var (w, answer) := firmware.write(world, at, data);
      assert HonestWrite(world, at, data, firmware.write(world, at, data));
      world, a := w, answer;
    }

    // One call of a legacy interface
    method TryRead(lba: nat, count: nat) returns (a: Answer)
      requires Honest(firmware) && Encodable(geometry) && 0 < count < 256
      modifies this`world
      ensures HonestRead(old(world), Wrapped(lba, Reach(geometry)), count, (world, a))
    {
      var registers := Locate(lba);
      a := Int13Read(registers, count);
    }

    method TryWrite(lba: nat, data: seq<Block>) returns (a: Answer)
      requires Honest(firmware) && Encodable(geometry) && 0 < |data| < 256
      modifies this`world
      ensures HonestWrite(old(world), Wrapped(lba, Reach(geometry)), data, (world, a))
    {
      var registers := Locate(lba);
      a := Int13Write(registers, data);
    }

    method LegacyRead(lba: nat, count: nat) returns (a: Answer, ghost attempts: nat)
      requires Valid() && interface == Legacy && 0 < count < 256
      modifies this`world
      ensures |a.data| == count && Tried(attempts, 3, a.carry, a.ah)
      ensures !Changed(a) ==> world.disk == old(world.disk)
      ensures var at := Wrapped(lba, Reach(geometry));
        !a.carry && at + count <= |world.disk| ==> a.data == world.disk[at..at + count]
    {
      ghost var at := Wrapped(lba, Reach(geometry));
      var retry := 3;
      attempts := 0;
      a := Answer(true, 0, []);
      var first := true;
      while first || (a.carry && retry != 0 && a.ah != DISK_CHANGED)
        invariant 0 <= retry <= 3 && attempts == 3 - retry && first == (retry == 3) && (first ==> !Changed(a))
        invariant !Changed(a) ==> world.disk == old(world.disk)
        invariant !first ==> |a.data| == count
        invariant !first && !a.carry && at + count <= |world.disk| ==> a.data == world.disk[at..at + count]
        decreases retry
      {
        first := false;
        a := TryRead(lba, count);
        retry, attempts := retry - 1, attempts + 1;
      }
    }

    method CallWrite(lba: nat, data: seq<Block>) returns (a: Answer, ghost attempts: nat)
      requires Valid() && 0 < |data| < 256
      modifies this`world
      ensures Tried(attempts, Most(interface), a.carry, a.ah)
      ensures var at := Where(interface, Reach(geometry), lba);
        && (!Changed(a) ==> SameOutside(old(world.disk), world.disk, at, |data|))
        && (!a.carry && at + |data| <= |old(world.disk)| ==> world.disk == Splice(old(world.disk), at, data))
    {
      if interface == Legacy {
        a, attempts := LegacyWrite(lba, data);
      } else {
        assert HonestWrite(world, lba, data, firmware.write(world, lba, data));
        var (w, answer) := firmware.write(world, lba, data);
        world, a, attempts := w, answer, 1;
      }
    }

    method LegacyWrite(lba: nat, data: seq<Block>) returns (a: Answer, ghost attempts: nat)
      requires Valid() && interface == Legacy && 0 < |data| < 256
      modifies this`world
      ensures Tried(attempts, 3, a.carry, a.ah)
      ensures var at := Wrapped(lba, Reach(geometry));
        && (!Changed(a) ==> SameOutside(old(world.disk), world.disk, at, |data|))
        && (!a.carry && at + |data| <= |old(world.disk)| ==> world.disk == Splice(old(world.disk), at, data))
    {
      ghost var at := Wrapped(lba, Reach(geometry));
      var retry := 3;
      attempts := 0;
      a := Answer(true, 0, []);
      var first := true;
      while first || (a.carry && retry != 0 && a.ah != DISK_CHANGED)
        invariant 0 <= retry <= 3 && attempts == 3 - retry && first == (retry == 3)
        invariant (first ==> a.carry && !Changed(a))
        invariant !Changed(a) ==> SameOutside(old(world.disk), world.disk, at, |data|)
        invariant !a.carry && at + |data| <= |old(world.disk)| ==> world.disk == Splice(old(world.disk), at, data)
        decreases retry
      {
        first := false;
        WrittenAgain(old(world.disk), world.disk, at, data);
        a := TryWrite(lba, data);
        retry, attempts := retry - 1, attempts + 1;
      }
    }

    // What is done about a call that failed
    method HandleFailure(ah: nat, writing: bool) returns (status: Status)
      modifies this`media, this`errorCode, this`geometry
      ensures media.id == if ah == DISK_CHANGED then NextId(old(media.id)) else old(media.id)
      ensures status == MediaChanged <==> ah == DISK_CHANGED && firmware.identify(world).answers
      ensures status == WriteProtected <==> writing && ah == WRITE_PROTECTED
      ensures status in {MediaChanged, WriteProtected, DeviceError}
      ensures var code := firmware.identify(world).code;
        errorCode == if ah == DISK_CHANGED && code.Some? then code.value else ah
      ensures status != MediaChanged ==> geometry == old(geometry)
      ensures status == MediaChanged ==>
        var id := firmware.identify(world);
        && geometry == id.geometry && !media.readOnly
        && (id.extensions ==> media.lastBlock == (id.sectors + TWO64 - 1) % TWO64 && media.blockSize == id.blockSize)
        && (!id.extensions && interface == Legacy ==>
              media.lastBlock == (Capacity(id.geometry) + TWO64 - 1) % TWO64 && media.blockSize == 512)
        && (!id.extensions && interface != Legacy ==>
              media.lastBlock == old(media.lastBlock) && media.blockSize == old(media.blockSize))
      ensures status == WriteProtected ==> media == old(media).(readOnly := true)
      ensures status == DeviceError ==>
        media == old(media).(id := media.id, present := old(media.present) && !media.removable)
    {
      errorCode := ah;
      if ah == DISK_CHANGED {
        media := media.(id := NextId(media.id));
        var id := firmware.identify(world);
        if id.code.Some? {
          errorCode := id.code.value;
        }
        if id.answers {
          geometry := id.geometry;
          if id.extensions {
            media := media.(lastBlock := (id.sectors + TWO64 - 1) % TWO64, blockSize := id.blockSize);
          } else if interface == Legacy {
            media := media.(lastBlock := (Capacity(geometry) + TWO64 - 1) % TWO64, blockSize := 512);
          }
          media := media.(readOnly := false);
          return MediaChanged;
        }
      } else if writing && ah == WRITE_PROTECTED {
        media := media.(readOnly := true);
        return WriteProtected;
      }
      if media.removable {
        media := media.(present := false);
      }
      status := DeviceError;
    }

    /** BiosBlockIoReset: the error code is overwritten only when a second attempt fails too. */
    method Reset() returns (status: Status)
      requires Honest(firmware)
      modifies this`world, this`errorCode
      ensures world.disk == old(world.disk) && status in {Success, DeviceError}
      ensures var first := firmware.reset(old(world));
        var second := firmware.reset(first.0).1;
        var fails := first.1.carry && first.1.al == RESET_FAILED && second.carry;
        && (status == DeviceError <==> fails)
        && errorCode == if fails then second.ah else old(errorCode)
    {
      var (w, r) := firmware.reset(world);
      world := w;
      if r.carry {
        if r.al == RESET_FAILED {
          var (w', r') := firmware.reset(world);
          world := w';
          if r'.carry {
            errorCode := r'.ah;
            return DeviceError;
          }
        }
      }
      status := Success;
    }

    // How many blocks the next piece has, and how many bytes
    method NextCount(remaining: nat, at: nat, ghost left: nat) returns (numberOfBlocks: nat, transferByteSize: nat)
      requires Usable(interface, geometry, media.blockSize) && remaining == Offset(media.blockSize, left) && left > 0
      ensures numberOfBlocks == PieceSize(interface, geometry, media.blockSize, at, left)
      ensures transferByteSize == Offset(media.blockSize, numberOfBlocks)
    {
      WholeBlocks(left, media.blockSize);
      LimitFits(interface, geometry, media.blockSize, at);
      numberOfBlocks := remaining / media.blockSize;
      var limit := Limit(interface, geometry, media.blockSize, at);
      numberOfBlocks := if numberOfBlocks > limit then limit else numberOfBlocks;
      WholeBlocks(numberOfBlocks, media.blockSize);
      transferByteSize := numberOfBlocks * media.blockSize;
    }

    // The drive is as it was when the job was admitted.
    ghost predicate Serves(j: Job)
      reads this
    {
      Valid() && j.interface == interface && j.geometry == geometry && j.blockSize == media.blockSize && UsableJob(j)
    }

    // What the calls made for a job, the last of which may have failed, leave of the media and the error code.
    twostate predicate Concludes(made: seq<Call>, status: Status)
      reads this
    {
      && made != [] && (status == Success <==> !Failed(made)) && (status == MediaChanged ==> Detected(made))
      && media.id == (if Detected(made) then NextId(old(media.id)) else old(media.id))
      && (!Failed(made) ==> errorCode == old(errorCode))
      && (Failed(made) && !Detected(made) ==> errorCode == made[|made| - 1].ah)
    }

    // One piece of a read, at a place in the buffer: straight into it for EDD 3.0, through the transfer buffer
    // otherwise
    method ReadPiece(buffer: array<Block>, k: nat, lba: nat, count: nat) returns (a: Answer, ghost attempts: nat)
      requires Valid() && 0 < count < 256 && k + count <= buffer.Length
      modifies this`world, buffer
      ensures Tried(attempts, Most(interface), a.carry, a.ah) && (!Changed(a) ==> world.disk == old(world.disk))
      ensures forall b :: 0 <= b < buffer.Length && !(k <= b < k + count) ==> buffer[b] == old(buffer[b])
      ensures var at := Where(interface, Reach(geometry), lba);
        !a.carry && at + count <= |world.disk| ==>
          forall b :: k <= b < k + count ==> buffer[b] == world.disk[at + (b - k)]
      ensures a.carry && interface != Edd30 ==> forall b :: 0 <= b < buffer.Length ==> buffer[b] == old(buffer[b])
    {
      a, attempts := CallRead(lba, count);
      if interface == Edd30 || !a.carry {
        forall i | 0 <= i < count {
          buffer[k + i] := a.data[i];
        }
      }
    }

    // The first k blocks are in the buffer, if the disk is as described.
    ghost predicate HasRead(j: Job, known: bool, before: seq<Block>, now: seq<Block>, k: nat)
      requires UsableJob(j)
      reads this
    {
      known ==> j.lba + j.n <= |world.disk| && ReadSoFar(j, world.disk, before, now, k, 0)
    }

    // One piece of a read, from the place where it is in the job
    method ReadPieceOf(buffer: array<Block>, k: nat, at: nat, count: nat, ghost j: Job, ghost before: seq<Block>,
                       ghost known: bool)
      returns (a: Answer, ghost attempts: nat)
      requires Serves(j) && k < j.n <= buffer.Length && at == j.lba + k
      requires count == PieceSize(interface, geometry, media.blockSize, at, j.n - k)
      requires HasRead(j, known, before, buffer[..], k)
      modifies this`world, buffer
      ensures Tried(attempts, Most(interface), a.carry, a.ah) && (!Changed(a) ==> world.disk == old(world.disk))
      ensures !a.carry ==> HasRead(j, known, before, buffer[..], k + count)
      ensures a.carry && known ==>
        ReadSoFar(j, old(world.disk), before, buffer[..], k, if interface == Edd30 then j.n - k else 0)
    {
      ghost var mid, disk := buffer[..], world.disk;
      assert Where(interface, Reach(geometry), at) == Place(j, k);
      a, attempts := ReadPiece(buffer, k, at, count);
      if known && !a.carry {
        ReadAsked(j, disk, before, mid, buffer[..], k, count);
      }
    }

    // One round of the loop of a read
    method ReadNext(buffer: array<Block>, k: nat, at: nat, remaining: nat, ghost j: Job, ghost made: seq<Call>,
                    ghost before: seq<Block>, ghost known: bool)
      returns (status: Status, count: nat, bytes: nat, ghost made': seq<Call>)
      requires Serves(j) && OnPlan(j, k, made) && k < j.n <= buffer.Length && at == j.lba + k
      requires remaining == Offset(j.blockSize, j.n - k) && HasRead(j, known, before, buffer[..], k)
      modifies this`world, this`media, this`errorCode, this`geometry, buffer
      ensures 0 < count <= j.n - k && bytes == Offset(j.blockSize, count)
      ensures Follows(made', Pieces(j), Most(j.interface))
      ensures Concludes(made', status) && status in {Success, MediaChanged, DeviceError}
      ensures status == Success ==>
        && Serves(j) && OnPlan(j, k + count, made') && HasRead(j, known, before, buffer[..], k + count)
        && world.disk == old(world.disk) && media == old(media).(present := true)
      ensures status != Success && known ==>
        ReadSoFar(j, old(world.disk), before, buffer[..], k, if interface == Edd30 then j.n - k else 0)
      ensures !Detected(made') ==> world.disk == old(world.disk)
      ensures status != MediaChanged ==> geometry == old(geometry) && media.blockSize == old(media.blockSize)
      ensures status == MediaChanged ==> Identified(old(media.blockSize))
    {
      count, bytes := NextCount(remaining, at, j.n - k);
      var a;
      ghost var attempts;
      a, attempts := ReadPieceOf(buffer, k, at, count, j, before, known);
      ghost var call := Call(Piece(at, count), attempts, a.carry, a.ah);
      NextOnPlan(j, k, made, call);
      made' := made + [call];
      media := media.(present := true);
      if a.carry {
        status := HandleFailure(a.ah, false);
      } else {
        status := Success;
      }
    }

    // The geometry and the block size are those that the firmware gave for the disk now there.
    ghost predicate Identified(blockSize: nat)
      reads this
    {
      var id := firmware.identify(world);
      && id.answers && geometry == id.geometry
      && media.blockSize == if id.extensions then id.blockSize else if interface == Legacy then 512 else blockSize
    }

    // The loop of a read
    method ReadPieces(lba: nat, bufferSize: nat, buffer: array<Block>, ghost j: Job, ghost known: bool)
      returns (status: Status, ghost done: nat, ghost made: seq<Call>)
      requires Serves(j) && 0 < j.n <= buffer.Length && lba == j.lba && bufferSize == Offset(j.blockSize, j.n)
      requires known ==> j.lba + j.n <= |world.disk|
      modifies this`world, this`media, this`errorCode, this`geometry, buffer
      ensures Follows(made, Pieces(j), Most(j.interface)) && Concludes(made, status)
      ensures status in {Success, MediaChanged, DeviceError}
      ensures status == Success ==>
        && Serves(j) && |made| == |Pieces(j)| && media == old(media).(present := true) && done == j.n
      ensures status != Success ==> done < j.n
      ensures known ==>
        ReadSoFar(j, old(world.disk), old(buffer[..]), buffer[..], done,
                  if status != Success && interface == Edd30 then j.n - done else 0)
      ensures !Detected(made) ==> world.disk == old(world.disk)
      ensures status != MediaChanged ==> geometry == old(geometry) && media.blockSize == old(media.blockSize)
      ensures status == MediaChanged ==> Identified(old(media.blockSize))
    {
      var remaining, at, k := bufferSize, lba, 0;
      made := [];
      while remaining > 0
        invariant k <= j.n && at == lba + k && remaining == Offset(j.blockSize, j.n - k) && (k == 0 <==> made == [])
        invariant Serves(j) && world.disk == old(world.disk) && errorCode == old(errorCode)
        invariant media == if k == 0 then old(media) else old(media).(present := true)
        invariant OnPlan(j, k, made) && HasRead(j, known, old(buffer[..]), buffer[..], k)
      {
        BlocksPositive(j.n - k, j.blockSize);
        var count, bytes;
        done := k;
        status, count, bytes, made := ReadNext(buffer, k, at, remaining, j, made, old(buffer[..]), known);
        if status != Success {
          return;
        }
        BlocksLeft(j.n - k, count, j.blockSize);
        remaining, at, k := remaining - bytes, at + count, k + count;
      }
      BlocksPositive(j.n - k, j.blockSize);
      PlanDone(j, made);
      status, done := Success, j.n;
    }

    // Geometry and block size stay, unless another disk was identified.
    twostate predicate KeepsParameters(status: Status)
      reads this
    {
      if status == MediaChanged then Identified(old(media.blockSize))
      else geometry == old(geometry) && media.blockSize == old(media.blockSize)
    }

    // The blocks that a request asks for
    ghost function Asked(lba: nat, bufferSize: nat): Job
      requires media.blockSize > 0
      reads this
    {
      Job(interface, geometry, media.blockSize, Reach(geometry), lba, bufferSize / media.blockSize)
    }

    // What is decided about a request before any I/O
    ghost function Decision(writing: bool, mediaId: nat, lba: nat, bufferSize: nat, buffer: bool): Decision
      requires mediaId == media.id && lba <= media.lastBlock ==> media.blockSize > 0
      reads this
    {
      Decide(interface, media, errorCode, Request(writing, mediaId, lba, bufferSize, buffer))
    }

    /**
     * Edd30BiosReadBlocks, Edd11BiosReadBlocks, BiosReadLegacyDrive: a read that succeeds returns the blocks of the
     * disk that the firmware was asked for; one that fails leaves the first `done` blocks right, and the rest alone
     * unless the firmware writes into the buffer itself.
     */
    method ReadBlocks(mediaId: nat, lba: nat, bufferSize: nat, buffer: array?<Block>)
      returns (status: Status, ghost done: nat, ghost made: seq<Call>)
      requires bufferSize < TWO64 / 2 && (mediaId == media.id && lba <= media.lastBlock ==> media.blockSize > 0)
      requires Decision(false, mediaId, lba, bufferSize, buffer != null) == Admitted ==>
        Valid() && buffer.Length >= bufferSize / media.blockSize
      modifies this`world, this`media, this`errorCode, this`geometry, if buffer == null then {} else {buffer}
      ensures old(media.blockSize > 0 && media.lastBlock < TWO64 / 2) ==>
        Answered(interface, old(media), old(errorCode), Request(false, mediaId, lba, bufferSize, buffer != null),
                 status, done)
      ensures var d := old(Decision(false, mediaId, lba, bufferSize, buffer != null));
        if d != Admitted then
          && d == Refused(status) && made == [] && unchanged(this) && (buffer != null ==> unchanged(buffer))
        else
          && ReadOutcome(old(Asked(lba, bufferSize)), status, done, made, old(Described()),
                         old(world.disk), world.disk, old(buffer[..]), buffer[..])
          && Concludes(made, status) && KeepsParameters(status) && status in {Success, MediaChanged, DeviceError}
          && (status == Success ==> media == old(media).(present := true))
    {
      ghost var m0, e0, r := media, errorCode, Request(false, mediaId, lba, bufferSize, buffer != null);
      var d := Decide(interface, media, errorCode, Request(false, mediaId, lba, bufferSize, buffer != null));
      if d != Admitted {
        AnswersFor(interface, m0, e0, r, d.status, 0);
        return d.status, 0, [];
      }
      AdmittedWhole(interface, media, errorCode, Request(false, mediaId, lba, bufferSize, buffer != null));
      ghost var j, known, disk, before := Asked(lba, bufferSize), Described(), world.disk, buffer[..];
      if known {
        AdmittedInside(interface, media, errorCode, Request(false, mediaId, lba, bufferSize, true));
      }
      status, done, made := ReadPieces(lba, bufferSize, buffer, j, known);
      AnswersFor(interface, m0, e0, r, status, done);
      if known && Direct(j) && status == Success {
        ReadAll(j, disk, before, buffer[..]);
        assert buffer[..][..j.n] == buffer[..j.n];
      }
    }

    // The first k blocks are on the disk, if the disk is as described.
    ghost predicate HasWritten(j: Job, known: bool, before: seq<Block>, data: seq<Block>, k: nat)
      requires UsableJob(j)
      reads this
    {
      known ==> j.lba + j.n <= |world.disk| && WrittenSoFar(j, before, world.disk, data, k, 0)
    }

    // One piece of a write, from a place in the buffer
    method WritePiece(buffer: array<Block>, k: nat, at: nat, count: nat, ghost j: Job, ghost before: seq<Block>,
                      ghost known: bool)
      returns (a: Answer, ghost attempts: nat)
      requires Serves(j) && k < j.n <= buffer.Length && at == j.lba + k
      requires count == PieceSize(interface, geometry, media.blockSize, at, j.n - k)
      requires HasWritten(j, known, before, buffer[..], k)
      modifies this`world
      ensures Tried(attempts, Most(interface), a.carry, a.ah)
      ensures known && !Changed(a) ==> WrittenSoFar(j, before, world.disk, buffer[..], k, count)
      ensures !a.carry ==> HasWritten(j, known, before, buffer[..], k + count)
    {
      ghost var mid, data := world.disk, buffer[..];
      var piece := buffer[k..k + count];
      assert piece == data[k..k + count] && Where(interface, Reach(geometry), at) == Place(j, k);
      a, attempts := CallWrite(at, piece);
      if known {
        PieceAsked(j, before, mid, world.disk, data, k, count, piece, Changed(a), a.carry);
      }
    }

    // One round of the loop of a write
    method WriteNext(buffer: array<Block>, k: nat, at: nat, remaining: nat, ghost j: Job, ghost made: seq<Call>,
                     ghost before: seq<Block>, ghost known: bool)
      returns (status: Status, count: nat, bytes: nat, ghost made': seq<Call>)
      requires Serves(j) && OnPlan(j, k, made) && k < j.n <= buffer.Length && at == j.lba + k
      requires remaining == Offset(j.blockSize, j.n - k) && HasWritten(j, known, before, buffer[..], k)
      modifies this`world, this`media, this`errorCode, this`geometry
      ensures 0 < count <= j.n - k && bytes == Offset(j.blockSize, count)
      ensures Follows(made', Pieces(j), Most(j.interface))
      ensures Concludes(made', status) && status in {Success, MediaChanged, DeviceError, WriteProtected}
      ensures Protected(made', status)
      ensures status == Success ==>
        && Serves(j) && OnPlan(j, k + count, made') && HasWritten(j, known, before, buffer[..], k + count)
        && media == old(media).(present := true, readOnly := false)
      ensures status != Success && known && !Detected(made') ==>
        WrittenSoFar(j, before, world.disk, buffer[..], k, count)
      ensures status == WriteProtected ==> media.readOnly
      ensures status != MediaChanged ==> geometry == old(geometry) && media.blockSize == old(media.blockSize)
      ensures status == MediaChanged ==> Identified(old(media.blockSize))
    {
      count, bytes := NextCount(remaining, at, j.n - k);
      var a;
      ghost var attempts;
      a, attempts := WritePiece(buffer, k, at, count, j, before, known);
      ghost var call := Call(Piece(at, count), attempts, a.carry, a.ah);
      NextOnPlan(j, k, made, call);
      made' := made + [call];
      media := media.(present := true);
      if a.carry {
        status := HandleFailure(a.ah, true);
      } else {
        media := media.(readOnly := false);
        status := Success;
      }
    }

    // The loop of a write
    method WritePieces(lba: nat, bufferSize: nat, buffer: array<Block>, ghost j: Job, ghost known: bool)
      returns (status: Status, ghost done: nat, ghost made: seq<Call>)
      requires Serves(j) && 0 < j.n <= buffer.Length && lba == j.lba && bufferSize == Offset(j.blockSize, j.n)
      requires known ==> j.lba + j.n <= |world.disk|
      modifies this`world, this`media, this`errorCode, this`geometry
      ensures Follows(made, Pieces(j), Most(j.interface)) && Concludes(made, status) && Protected(made, status)
      ensures status in {Success, MediaChanged, DeviceError, WriteProtected}
      ensures status == Success ==>
        && Serves(j) && |made| == |Pieces(j)| && done == j.n && media == old(media).(present := true, readOnly := false)
      ensures status != Success ==> done < j.n
      ensures known && !Detected(made) ==>
        exists more :: 0 <= more <= j.n - done && WrittenSoFar(j, old(world.disk), world.disk, buffer[..], done, more)
          && (status == Success ==> more == 0)
      ensures status == WriteProtected ==> media.readOnly
      ensures status != MediaChanged ==> geometry == old(geometry) && media.blockSize == old(media.blockSize)
      ensures status == MediaChanged ==> Identified(old(media.blockSize))
    {
      var remaining, at, k := bufferSize, lba, 0;
      made := [];
      while remaining > 0
        invariant k <= j.n && at == lba + k && remaining == Offset(j.blockSize, j.n - k) && (k == 0 <==> made == [])
        invariant Serves(j) && errorCode == old(errorCode)
        invariant media == if k == 0 then old(media) else old(media).(present := true, readOnly := false)
        invariant OnPlan(j, k, made) && HasWritten(j, known, old(world.disk), buffer[..], k)
      {
        BlocksPositive(j.n - k, j.blockSize);
        var count, bytes;
        done := k;
        status, count, bytes, made := WriteNext(buffer, k, at, remaining, j, made, old(world.disk), known);
        if status != Success {
          return;
        }
        BlocksLeft(j.n - k, count, j.blockSize);
        remaining, at, k := remaining - bytes, at + count, k + count;
      }
      BlocksPositive(j.n - k, j.blockSize);
      PlanDone(j, made);
      status, done := Success, j.n;
    }

    /**
     * Edd30BiosWriteBlocks, Edd11BiosWriteBlocks, BiosWriteLegacyDrive: a write that succeeds puts the buffer's blocks
     * where the firmware was asked to and touches no other block; one that fails without a change of disk leaves the
     * first `done` blocks written and touches no place that the request does not reach.
     */
    method WriteBlocks(mediaId: nat, lba: nat, bufferSize: nat, buffer: array?<Block>)
      returns (status: Status, ghost done: nat, ghost made: seq<Call>)
      requires bufferSize < TWO64 / 2 && (mediaId == media.id && lba <= media.lastBlock ==> media.blockSize > 0)
      requires Decision(true, mediaId, lba, bufferSize, buffer != null) == Admitted ==>
        Valid() && buffer.Length >= bufferSize / media.blockSize
      modifies this`world, this`media, this`errorCode, this`geometry
      ensures old(media.blockSize > 0 && media.lastBlock < TWO64 / 2) ==>
        Answered(interface, old(media), old(errorCode), Request(true, mediaId, lba, bufferSize, buffer != null),
                 status, done)
      ensures var d := old(Decision(true, mediaId, lba, bufferSize, buffer != null));
        if d != Admitted then d == Refused(status) && made == [] && unchanged(this)
        else
          && WriteOutcome(old(Asked(lba, bufferSize)), status, done, made, old(Described()),
                          old(world.disk), world.disk, buffer[..])
          && Concludes(made, status) && KeepsParameters(status)
          && status in {Success, MediaChanged, DeviceError, WriteProtected}
          && Protected(made, status) && (status == WriteProtected ==> media.readOnly)
          && (status == Success ==> media == old(media).(present := true, readOnly := false))
    {
      ghost var m0, e0, r := media, errorCode, Request(true, mediaId, lba, bufferSize, buffer != null);
      var d := Decide(interface, media, errorCode, Request(true, mediaId, lba, bufferSize, buffer != null));
      if d != Admitted {
        AnswersFor(interface, m0, e0, r, d.status, 0);
        return d.status, 0, [];
      }
      AdmittedWhole(interface, media, errorCode, Request(true, mediaId, lba, bufferSize, buffer != null));
      ghost var j, known, disk := Asked(lba, bufferSize), Described(), world.disk;
      if known {
        AdmittedInside(interface, media, errorCode, Request(true, mediaId, lba, bufferSize, true));
      }
      status, done, made := WritePieces(lba, bufferSize, buffer, j, known);
      AnswersFor(interface, m0, e0, r, status, done);
      if known && Direct(j) && status == Success {
        WrittenAll(j, disk, world.disk, buffer[..]);
        assert buffer[..][..j.n] == buffer[..j.n];
      }
    }

    /**
     * A write followed by a read of the same blocks, over every interface: what is read is what was written last to
     * each place, so the buffer comes back whole if no two blocks of it share a place, that is, over a legacy interface
     * if it is no longer than 1024 cylinders.
     */
    method WriteAndRead(lba: nat, bufferSize: nat, from: array<Block>, into: array<Block>)
      returns (written: Status, read: Status, ghost j: Job)
      requires Valid() && Described() && bufferSize < TWO64 / 2 && from != into
      requires Decision(true, media.id, lba, bufferSize, true) == Admitted
      requires from.Length >= bufferSize / media.blockSize && into.Length >= bufferSize / media.blockSize
      modifies this`world, this`media, this`errorCode, this`geometry, into
      ensures written == Success ==> read in {Success, MediaChanged, DeviceError}
      ensures j == old(Asked(lba, bufferSize)) && UsableJob(j) && j.n <= from.Length && j.n <= into.Length
      ensures lba + j.n <= |old(world.disk)|
      ensures written == read == Success ==>
        && WrittenSoFar(j, old(world.disk), world.disk, from[..], j.n, 0)
        && forall b :: 0 <= b < j.n && Spares(j, b + 1, j.n, Place(j, b)) ==> into[b] == from[b]
      ensures written == read == Success && (j.interface == Legacy ==> j.n <= j.reach) ==>
        into[..j.n] == from[..j.n]
      ensures written == read == Success && Direct(j) ==> world.disk == Splice(old(world.disk), lba, from[..j.n])
    {
      j := Asked(lba, bufferSize);
      ghost var disk, media0 := world.disk, media;
      ghost var done, made;
      AdmittedInside(interface, media, errorCode, Request(true, media.id, lba, bufferSize, true));
      written, done, made := WriteBlocks(media.id, lba, bufferSize, from);
      read := written;
      if written == Success {
        ghost var now, before, sent := world.disk, into[..], made;
        AdmittedAgain(interface, media0, media, errorCode, Request(true, media.id, lba, bufferSize, true), false);
        read, done, made := ReadBlocks(media.id, lba, bufferSize, into);
        if read == Success {
          WrittenAndRead(j, sent, made, disk, now, world.disk, from[..], before, into[..]);
        }
      }
    }
  }
}
