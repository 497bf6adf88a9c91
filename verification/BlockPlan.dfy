/**
 * What a block I/O request asks of INT 13h (BlockIoDxe/BiosInt13.c): whether it is admitted at all, the pieces
 * it is cut into, and which blocks of the disk they reach.
 */
module BlockPlan {
  import opened Arithmetic
  import opened MachineWords
  import opened Chs
  import opened Raster

  datatype Block = Block(bytes: seq<int>)

  const WRITE_PROTECTED: nat := 3
  const SECTOR_NOT_FOUND: nat := 4
  const RESET_FAILED: nat := 5
  const DISK_CHANGED: nat := 6
  const DRIVE_DOES_NOT_EXIST: nat := 7

  // The error codes after which no I/O is done
  predicate Fatal(code: nat) { code == SECTOR_NOT_FOUND || code == DRIVE_DOES_NOT_EXIST }

  datatype Interface = Edd30 | Edd11 | Legacy

  datatype Status = Success | MediaChanged | InvalidParameter | BadBufferSize | DeviceError | WriteProtected

  datatype Media = Media(id: nat, present: bool, removable: bool, readOnly: bool, lastBlock: nat, blockSize: nat)

  // The next 32-bit number
  function NextId(id: nat): nat { if id == 0xffff_ffff then 0 else id + 1 }

  datatype Decision = Refused(status: Status) | Admitted

  // A request as the caller makes it
  datatype Request = Request(writing: bool, mediaId: nat, lba: nat, bufferSize: nat, buffer: bool)

  /** What is decided before any I/O, in the order of the checks; the sum of the second range check wraps at 64 bits. */
  function Decide(i: Interface, m: Media, errorCode: nat, r: Request): Decision
    requires r.mediaId == m.id && r.lba <= m.lastBlock ==> m.blockSize > 0
  {
    if r.mediaId != m.id then Refused(MediaChanged)
    else if r.lba > m.lastBlock then Refused(if i == Edd30 && r.writing then DeviceError else InvalidParameter)
    else if (r.lba + r.bufferSize / m.blockSize + TWO64 - 1) % TWO64 > m.lastBlock then Refused(InvalidParameter)
    else if r.bufferSize % m.blockSize != 0 then Refused(BadBufferSize)
    else if !r.buffer then Refused(InvalidParameter)
    else if r.bufferSize == 0 then Refused(Success)
    else if Fatal(errorCode) then Refused(DeviceError)
    else Admitted
  }

  // What a caller is told, and how many blocks it gets, for a request that `done` blocks were transferred of
  ghost predicate Answered(i: Interface, m: Media, errorCode: nat, r: Request, status: Status, done: nat)
    requires m.blockSize > 0
  {
    var n := r.bufferSize / m.blockSize;
    var starts := r.mediaId == m.id && r.lba <= m.lastBlock;
    var inside := starts && 0 < r.lba + n <= m.lastBlock + 1;
    var whole := inside && r.bufferSize % m.blockSize == 0;
    && (status == Success <==> (0 < n && done == n) || (whole && r.buffer && r.bufferSize == 0))
    && (done > 0 ==> whole && r.buffer && errorCode != 4 && errorCode != 7)
    && (r.mediaId != m.id ==> status == MediaChanged)
    && (r.mediaId == m.id && r.lba > m.lastBlock ==>
          status == if i == Edd30 && r.writing then DeviceError else InvalidParameter)
    && (starts && !inside ==> status == InvalidParameter)
    && (inside && r.bufferSize % m.blockSize != 0 ==> status == BadBufferSize)
    && (whole && !r.buffer ==> status == InvalidParameter)
    && (whole && r.buffer && r.bufferSize > 0 && (errorCode == 4 || errorCode == 7) ==> status == DeviceError)
  }

  // The range check sums modulo 2^64.
  lemma EndsInside(m: Media, lba: nat, n: nat)
    requires lba <= m.lastBlock < TWO64 / 2 && n < TWO64 / 2
    ensures (lba + n + TWO64 - 1) % TWO64 > m.lastBlock <==> !(0 < lba + n <= m.lastBlock + 1)
  {
    if lba + n > 0 {
      QuotientIs(lba + n + TWO64 - 1, TWO64, 1, lba + n - 1);
    } else {
      QuotientIs(TWO64 - 1, TWO64, 0, TWO64 - 1);
    }
  }

  lemma WholeIsEmpty(bufferSize: nat, blockSize: nat)
    requires blockSize > 0 && bufferSize % blockSize == 0
    ensures bufferSize == 0 <==> bufferSize / blockSize == 0
  {
    var n := bufferSize / blockSize;
    assert bufferSize == n * blockSize;
  }

  /** What is refused is answered so, and for what is admitted the answer is Success just if every block is done. */
  lemma AnswersMean(i: Interface, m: Media, errorCode: nat, r: Request, status: Status, done: nat)
    requires m.blockSize > 0 && m.lastBlock < TWO64 / 2 && r.bufferSize / m.blockSize < TWO64 / 2
    requires var d := Decide(i, m, errorCode, r);
      if d == Admitted then status == Success <==> done == r.bufferSize / m.blockSize
      else d == Refused(status) && done == 0
    ensures Answered(i, m, errorCode, r, status, done)
  {
    var n := r.bufferSize / m.blockSize;
    if r.lba <= m.lastBlock {
      EndsInside(m, r.lba, n);
    }
    if r.bufferSize % m.blockSize == 0 {
      WholeIsEmpty(r.bufferSize, m.blockSize);
    }
  }

  lemma AnswersFor(i: Interface, m: Media, errorCode: nat, r: Request, status: Status, done: nat)
    requires r.bufferSize < TWO64 / 2 && (r.mediaId == m.id && r.lba <= m.lastBlock ==> m.blockSize > 0)
    requires var d := Decide(i, m, errorCode, r);
      if d == Admitted then m.blockSize > 0 && (status == Success <==> done == r.bufferSize / m.blockSize)
      else d == Refused(status) && done == 0
    ensures m.blockSize > 0 && m.lastBlock < TWO64 / 2 ==> Answered(i, m, errorCode, r, status, done)
  {
    if m.blockSize > 0 && m.lastBlock < TWO64 / 2 {
      QuotientAtMost(r.bufferSize, m.blockSize);
      AnswersMean(i, m, errorCode, r, status, done);
    }
  }

  /** Admitted requests are those for at least one block, all on the disk, by the current media ID. */
  lemma AdmittedIff(i: Interface, m: Media, errorCode: nat, r: Request)
    requires m.blockSize > 0 && m.lastBlock < TWO64 / 2 && r.bufferSize / m.blockSize < TWO64 / 2
    ensures Decide(i, m, errorCode, r) == Admitted
       <==> && r.mediaId == m.id && r.buffer && r.bufferSize % m.blockSize == 0
            && 0 < r.bufferSize / m.blockSize && r.lba + r.bufferSize / m.blockSize <= m.lastBlock + 1
            && !Fatal(errorCode)
  {
    var n := r.bufferSize / m.blockSize;
    assert r.bufferSize == n * m.blockSize + r.bufferSize % m.blockSize;
    if n > 0 && r.lba <= m.lastBlock {
      QuotientIs(r.lba + n + TWO64 - 1, TWO64, 1, r.lba + n - 1);
      assert n * m.blockSize >= m.blockSize by { TimesMonotonic(1, n, m.blockSize); }
    }
  }

  lemma AdmittedWhole(i: Interface, m: Media, errorCode: nat, r: Request)
    requires m.blockSize > 0 && Decide(i, m, errorCode, r) == Admitted
    ensures r.bufferSize == Offset(m.blockSize, r.bufferSize / m.blockSize) && r.bufferSize / m.blockSize > 0
  {
    OffsetIsProduct(m.blockSize, r.bufferSize / m.blockSize);
  }

  lemma QuotientAtMost(x: nat, p: nat)
    requires p > 0
    ensures x / p <= x
  {
    TimesMonotonic(1, p, x / p);
  }

  lemma AdmittedInside(i: Interface, m: Media, errorCode: nat, r: Request)
    requires m.blockSize > 0 && m.lastBlock < TWO64 / 2 && r.bufferSize < TWO64 / 2
    requires Decide(i, m, errorCode, r) == Admitted
    ensures r.lba + r.bufferSize / m.blockSize <= m.lastBlock + 1
  {
    var n := r.bufferSize / m.blockSize;
    QuotientAtMost(r.bufferSize, m.blockSize);
    if r.lba + n > m.lastBlock + 1 {
      QuotientIs(r.lba + n + TWO64 - 1, TWO64, 1, r.lba + n - 1);
    }
  }

  // Whether the media are present or can be written makes no difference to what is admitted.
  lemma AdmittedAgain(i: Interface, m: Media, m': Media, errorCode: nat, r: Request, writing: bool)
    requires m.blockSize > 0 && m' == m.(present := m'.present, readOnly := m'.readOnly)
    requires Decide(i, m, errorCode, r) == Admitted
    ensures Decide(i, m', errorCode, r.(writing := writing)) == Admitted
  {
  }

  /** An empty request succeeds, except at block 0, where it is out of range. */
  lemma EmptyRequest(i: Interface, m: Media, errorCode: nat, r: Request)
    requires m.blockSize > 0 && m.lastBlock < TWO64 - 1
    requires r.mediaId == m.id && r.buffer && r.bufferSize == 0 && r.lba <= m.lastBlock
    ensures Decide(i, m, errorCode, r) == Refused(if r.lba == 0 then InvalidParameter else Success)
  {
    if r.lba > 0 {
      QuotientIs(r.lba + TWO64 - 1, TWO64, 1, r.lba - 1);
    }
  }

  // The most blocks that are transferred at once: what fits into the transfer buffer, or the rest of a track.
  function Limit(i: Interface, g: Geometry, blockSize: nat, lba: nat): nat
    requires blockSize > 0 && (i == Legacy ==> g.maxSector > 0)
  {
    if i == Legacy then g.maxSector - Split(g, lba).sector + 1 else 0xfe00 / blockSize
  }

  // The number of blocks of each piece is passed in a byte.
  predicate Usable(i: Interface, g: Geometry, blockSize: nat) {
    blockSize > 0 && if i == Legacy then Encodable(g) else 255 <= blockSize <= 0xfe00
  }

  lemma LimitFits(i: Interface, g: Geometry, blockSize: nat, lba: nat)
    requires Usable(i, g, blockSize)
    ensures 0 < Limit(i, g, blockSize, lba) < 256
  {
    if i != Legacy {
      LimitIff(blockSize);
    }
  }

  /** The pieces of the extended interfaces are not empty and fit the byte for just these block sizes. */
  lemma LimitIff(blockSize: nat)
    requires blockSize > 0
    ensures 0 < 0xfe00 / blockSize < 256 <==> 255 <= blockSize <= 0xfe00
  {
    BelowIff(0xfe00, blockSize, 1);
    BelowIff(0xfe00, blockSize, 256);
  }

  datatype Piece = Piece(lba: nat, count: nat)

  function Plan(i: Interface, g: Geometry, blockSize: nat, lba: nat, n: nat): seq<Piece>
    requires Usable(i, g, blockSize)
    decreases n
  {
    if n == 0 then []
    else
      LimitFits(i, g, blockSize, lba);
      var limit := Limit(i, g, blockSize, lba);
      var count := if n > limit then limit else n;
      [Piece(lba, count)] + Plan(i, g, blockSize, lba + count, n - count)
  }

  // Every piece starts where the one before it ends, from lba to lba + n, within the limit for its place.
  ghost predicate Tiles(plan: seq<Piece>, i: Interface, g: Geometry, blockSize: nat, lba: nat, n: nat)
    requires Usable(i, g, blockSize)
    decreases |plan|
  {
    if plan == [] then n == 0
    else
      && plan[0].lba == lba && 0 < plan[0].count <= n && plan[0].count <= Limit(i, g, blockSize, lba)
      && Tiles(plan[1..], i, g, blockSize, lba + plan[0].count, n - plan[0].count)
  }

  /** A request is partitioned into pieces. */
  lemma {:induction false} PlanTiles(i: Interface, g: Geometry, blockSize: nat, lba: nat, n: nat)
    requires Usable(i, g, blockSize)
    ensures Tiles(Plan(i, g, blockSize, lba, n), i, g, blockSize, lba, n)
    decreases n
  {
    if n > 0 {
      LimitFits(i, g, blockSize, lba);
      var limit := Limit(i, g, blockSize, lba);
      var count := if n > limit then limit else n;
      PlanTiles(i, g, blockSize, lba + count, n - count);
    }
  }

  /**
   * Pieces are as long as they can be: for an extended interface as many blocks as fit into 0xFE00 bytes, for a legacy
   * one up to the end of the track, and fewer only at the end of the request.
   */
  lemma PlanMeans(i: Interface, g: Geometry, blockSize: nat, lba: nat, n: nat)
    requires Usable(i, g, blockSize) && n > 0
    ensures var plan := Plan(i, g, blockSize, lba, n);
      && plan != [] && plan[0].lba == lba && 0 < plan[0].count <= n
      && plan[1..] == Plan(i, g, blockSize, lba + plan[0].count, n - plan[0].count)
      && (i == Legacy ==> plan[0].count == n < g.maxSector - lba % g.maxSector
                          || plan[0].count == g.maxSector - lba % g.maxSector)
      && (i != Legacy ==> plan[0].count * blockSize <= 0xfe00
                          && (plan[0].count == n || (plan[0].count + 1) * blockSize > 0xfe00))
  {
    LimitFits(i, g, blockSize, lba);
    var limit := Limit(i, g, blockSize, lba);
    var count := if n > limit then limit else n;
    assert Plan(i, g, blockSize, lba, n)[0] == Piece(lba, count);
    if i == Legacy {
      SectorIs(g, lba);
    } else {
      MostBlocks(blockSize, limit, count);
    }
  }

  lemma MostBlocks(blockSize: nat, limit: nat, count: nat)
    requires blockSize > 0 && limit == 0xfe00 / blockSize && count <= limit
    ensures count * blockSize <= 0xfe00 < (limit + 1) * blockSize
  {
    assert 0xfe00 == limit * blockSize + 0xfe00 % blockSize;
    assert (limit + 1) * blockSize == limit * blockSize + blockSize;
    TimesMonotonic(count, limit, blockSize);
  }

  /** Every piece of a legacy request lies on one track. */
  lemma PieceOnTrack(g: Geometry, blockSize: nat, p: Piece, k: nat)
    requires Usable(Legacy, g, blockSize) && 0 < p.count <= Limit(Legacy, g, blockSize, p.lba) && k < p.count
    ensures Split(g, p.lba + k).cylinder == Split(g, p.lba).cylinder && Split(g, p.lba + k).head == Split(g, p.lba).head
  {
    SameTrack(g, p.lba, k);
  }

  // ---------- the calls made for a request ----------

  // A piece, how often the firmware was called for it, and what the last of these calls left in carry flag and AH
  datatype Call = Call(piece: Piece, attempts: nat, carry: bool, ah: nat)

  function Most(i: Interface): nat { if i == Legacy then 3 else 1 }

  // A call is repeated until it succeeds, reports a changed disk or has been made `most` times.
  predicate Tried(attempts: nat, most: nat, carry: bool, ah: nat) {
    1 <= attempts <= most && (carry && ah != DISK_CHANGED ==> attempts == most)
  }

  // The calls are for the first pieces of a plan, each tried at most `most` times, and only the last one may have
  // failed.
  ghost predicate Follows(calls: seq<Call>, plan: seq<Piece>, most: nat) {
    && |calls| <= |plan|
    && (forall k :: 0 <= k < |calls| ==>
          calls[k].piece == plan[k] && Tried(calls[k].attempts, most, calls[k].carry, calls[k].ah))
    && forall k :: 0 <= k < |calls| - 1 ==> !calls[k].carry
  }

  predicate Failed(calls: seq<Call>) { calls != [] && calls[|calls| - 1].carry }

  // The firmware reported another disk.
  predicate Detected(calls: seq<Call>) { Failed(calls) && calls[|calls| - 1].ah == DISK_CHANGED }

  // The pieces of a request
  datatype Job = Job(interface: Interface, geometry: Geometry, blockSize: nat, reach: nat, lba: nat, n: nat)

  ghost predicate UsableJob(j: Job) {
    Usable(j.interface, j.geometry, j.blockSize) && (j.interface == Legacy ==> j.reach == Reach(j.geometry) > 0)
  }

  ghost function Pieces(j: Job): seq<Piece>
    requires UsableJob(j)
  {
    Plan(j.interface, j.geometry, j.blockSize, j.lba, j.n)
  }

  function PieceSize(i: Interface, g: Geometry, blockSize: nat, lba: nat, left: nat): (count: nat)
    requires Usable(i, g, blockSize) && left > 0
    ensures 0 < count < 256 && count <= left
  {
    LimitFits(i, g, blockSize, lba);
    var limit := Limit(i, g, blockSize, lba);
    if left > limit then limit else left
  }

  // All calls so far succeeded and they cover exactly the first k blocks.
  ghost predicate OnPlan(j: Job, k: nat, made: seq<Call>)
    requires UsableJob(j)
  {
    && k <= j.n && Follows(made, Pieces(j), Most(j.interface)) && !Failed(made)
    && Pieces(j)[|made|..] == Plan(j.interface, j.geometry, j.blockSize, j.lba + k, j.n - k)
  }

  lemma NextOnPlan(j: Job, k: nat, made: seq<Call>, call: Call)
    requires UsableJob(j) && OnPlan(j, k, made) && k < j.n
    requires Tried(call.attempts, Most(j.interface), call.carry, call.ah)
    requires call.piece == Piece(j.lba + k, PieceSize(j.interface, j.geometry, j.blockSize, j.lba + k, j.n - k))
    ensures Follows(made + [call], Pieces(j), Most(j.interface))
    ensures !call.carry ==> OnPlan(j, k + call.piece.count, made + [call])
  {
    var left := Plan(j.interface, j.geometry, j.blockSize, j.lba + k, j.n - k);
    var count := call.piece.count;
    assert left[1..] == Plan(j.interface, j.geometry, j.blockSize, j.lba + k + count, j.n - k - count);
    assert Pieces(j)[|made|] == left[0];
    assert Pieces(j)[|made| + 1..] == left[1..];
  }

  lemma PlanDone(j: Job, made: seq<Call>)
    requires UsableJob(j) && OnPlan(j, j.n, made)
    ensures |made| == |Pieces(j)|
  {
    assert |Pieces(j)[|made|..]| == 0;
  }

  // The bytes of m blocks, m * blockSize
  lemma WholeBlocks(m: nat, blockSize: nat)
    requires blockSize > 0
    ensures Offset(blockSize, m) == m * blockSize && Offset(blockSize, m) / blockSize == m
  {
    OffsetIsProduct(blockSize, m);
    QuotientIs(m * blockSize, blockSize, m, 0);
  }

  lemma BlocksLeft(m: nat, count: nat, blockSize: nat)
    requires count <= m
    ensures Offset(blockSize, m) - Offset(blockSize, count) == Offset(blockSize, m - count)
  {
    OffsetIsProduct(blockSize, m);
    OffsetIsProduct(blockSize, count);
    OffsetIsProduct(blockSize, m - count);
    assert m * blockSize == count * blockSize + (m - count) * blockSize;
  }

  lemma BlocksPositive(m: nat, blockSize: nat)
    requires blockSize > 0
    ensures Offset(blockSize, m) > 0 <==> m > 0
  {
    if m > 0 {
      OffsetGrows(blockSize, 0, m);
    }
  }

  // ---------- which blocks are reached ----------

  // The block of the disk that the firmware is asked for when block b is meant; a legacy interface reaches only the
  // first `reach` blocks.
  function Where(i: Interface, reach: nat, b: nat): (p: nat)
    requires i == Legacy ==> reach > 0
    ensures p <= b && (i != Legacy || b < reach ==> p == b)
  {
    if i == Legacy then Wrapped(b, reach) else b
  }

  /**
   * It is the block meant if and only if the interface is an extended one or the block lies in the first 1024
   * cylinders.
   */
  lemma WhereIff(i: Interface, g: Geometry, b: nat)
    requires i == Legacy ==> Encodable(g)
    ensures i == Legacy ==> Reach(g) > 0
    ensures Where(i, Reach(g), b) == b <==> i != Legacy || Split(g, b).cylinder < 0x400
  {
    if i == Legacy {
      AddressedWraps(g, b);
      AddressedIff(g, b);
    }
  }

  // The blocks of a piece are reached one after the other.
  lemma PieceWhere(i: Interface, g: Geometry, blockSize: nat, lba: nat, k: nat)
    requires Usable(i, g, blockSize) && k < Limit(i, g, blockSize, lba)
    ensures i == Legacy ==> Reach(g) > 0
    ensures Where(i, Reach(g), lba + k) == Where(i, Reach(g), lba) + k
  {
    if i == Legacy {
      SectorIs(g, lba);
      ReachPositive(g);
      var n := 0x400 * Heads(g);
      assert Reach(g) == g.maxSector * n;
      WrappedOnTrack(lba, k, g.maxSector, n, Reach(g));
    }
  }

  // Block k of a job, on the disk
  function Place(j: Job, k: nat): nat
    requires UsableJob(j)
  {
    Where(j.interface, j.reach, j.lba + k)
  }

  lemma PlaceInPiece(j: Job, at: nat, count: nat, k: nat)
    requires UsableJob(j) && at <= k < at + count && count <= Limit(j.interface, j.geometry, j.blockSize, j.lba + at)
    ensures Place(j, k) == Place(j, at) + (k - at)
  {
    PieceWhere(j.interface, j.geometry, j.blockSize, j.lba + at, k - at);
  }

  // A job all of whose blocks are reached at their own places
  ghost predicate Direct(j: Job) { j.interface == Legacy ==> j.lba + j.n <= j.reach }

  lemma DirectPlace(j: Job, k: nat)
    requires UsableJob(j) && Direct(j) && k < j.n
    ensures Place(j, k) == j.lba + k
  {
  }

  // The first k blocks of a buffer have been read, `more` blocks after them may hold anything.
  ghost predicate ReadSoFar(j: Job, disk: seq<Block>, before: seq<Block>, after: seq<Block>, k: nat, more: nat)
    requires UsableJob(j)
  {
    && |after| == |before| && k <= |after|
    && (forall b :: 0 <= b < k ==> Place(j, b) < |disk| && after[b] == disk[Place(j, b)])
    && forall b :: k + more <= b < |before| ==> after[b] == before[b]
  }

  lemma ReadMore(j: Job, disk: seq<Block>, before: seq<Block>, mid: seq<Block>, after: seq<Block>, k: nat, count: nat)
    requires UsableJob(j) && ReadSoFar(j, disk, before, mid, k, 0) && k + count <= |mid| == |after|
    requires 0 < count <= Limit(j.interface, j.geometry, j.blockSize, j.lba + k)
    requires Place(j, k) + count <= |disk|
    requires forall b :: 0 <= b < |mid| ==>
      after[b] == if k <= b < k + count then disk[Place(j, k) + (b - k)] else mid[b]
    ensures ReadSoFar(j, disk, before, after, k + count, 0)
  {
    forall b | 0 <= b < k + count ensures Place(j, b) < |disk| && after[b] == disk[Place(j, b)] {
      if k <= b {
        PlaceInPiece(j, k, count, b);
      }
    }
  }

  // The next piece of a job, from a disk that holds all of its blocks
  lemma ReadAsked(j: Job, disk: seq<Block>, before: seq<Block>, mid: seq<Block>, after: seq<Block>, k: nat, count: nat)
    requires UsableJob(j) && k < j.n <= |mid| == |after| && j.lba + j.n <= |disk|
    requires ReadSoFar(j, disk, before, mid, k, 0)
    requires count == PieceSize(j.interface, j.geometry, j.blockSize, j.lba + k, j.n - k)
    requires forall b :: 0 <= b < |mid| && !(k <= b < k + count) ==> after[b] == mid[b]
    requires Place(j, k) + count <= |disk| ==>
      forall b :: k <= b < k + count ==> after[b] == disk[Place(j, k) + (b - k)]
    ensures ReadSoFar(j, disk, before, after, k + count, 0)
  {
    ReadMore(j, disk, before, mid, after, k, count);
  }

  /** Where all blocks are reached at their own places, the buffer holds that part of the disk. */
  lemma ReadAll(j: Job, disk: seq<Block>, before: seq<Block>, after: seq<Block>)
    requires UsableJob(j) && Direct(j) && ReadSoFar(j, disk, before, after, j.n, 0) && j.lba + j.n <= |disk|
    ensures after[..j.n] == disk[j.lba..j.lba + j.n]
  {
    forall b | 0 <= b < j.n ensures after[b] == disk[j.lba + b] {
      DirectPlace(j, b);
    }
  }

  // No block from `from` on, up to `to`, of a job is at place p.
  ghost predicate Spares(j: Job, from: nat, to: nat, p: nat)
    requires UsableJob(j)
  {
    forall b :: from <= b < to ==> Place(j, b) != p
  }

  // The first k blocks of a buffer have been written, the last of those that share a place; the places of `more` blocks
  // after them may hold anything.
  ghost predicate WrittenSoFar(j: Job, before: seq<Block>, after: seq<Block>, data: seq<Block>, k: nat, more: nat)
    requires UsableJob(j)
  {
    && |after| == |before| && k <= |data|
    && (forall p :: 0 <= p < |before| && Spares(j, 0, k + more, p) ==> after[p] == before[p])
    && forall b :: 0 <= b < k && Spares(j, b + 1, k + more, Place(j, b)) ==>
         Place(j, b) < |after| && after[Place(j, b)] == data[b]
  }

  ghost predicate SameOutside(before: seq<Block>, after: seq<Block>, lba: nat, n: nat) {
    && |after| == |before|
    && forall p :: 0 <= p < |before| && !(lba <= p < lba + n) ==> after[p] == before[p]
  }

  // A piece that may have been written
  lemma WrittenMaybe(j: Job, before: seq<Block>, mid: seq<Block>, after: seq<Block>, data: seq<Block>, k: nat,
                     count: nat)
    requires UsableJob(j) && WrittenSoFar(j, before, mid, data, k, 0)
    requires 0 < count <= Limit(j.interface, j.geometry, j.blockSize, j.lba + k)
    requires SameOutside(mid, after, Place(j, k), count)
    ensures WrittenSoFar(j, before, after, data, k, count)
  {
    forall p | 0 <= p < |before| && Spares(j, 0, k + count, p) ensures after[p] == before[p] {
      SparedPlace(j, k, count, p);
      assert Spares(j, 0, k, p);
    }
    forall b | 0 <= b < k && Spares(j, b + 1, k + count, Place(j, b))
      ensures Place(j, b) < |after| && after[Place(j, b)] == data[b]
    {
      SparedPlace(j, k, count, Place(j, b));
      assert Spares(j, b + 1, k, Place(j, b));
    }
  }

  lemma SparedPlace(j: Job, k: nat, count: nat, p: nat)
    requires UsableJob(j) && 0 < count <= Limit(j.interface, j.geometry, j.blockSize, j.lba + k)
    requires Spares(j, k, k + count, p)
    ensures !(Place(j, k) <= p < Place(j, k) + count)
  {
    if Place(j, k) <= p < Place(j, k) + count {
      PlaceInPiece(j, k, count, k + (p - Place(j, k)));
    }
  }

  // A piece that has been written
  lemma WrittenMore(j: Job, before: seq<Block>, mid: seq<Block>, data: seq<Block>, k: nat, count: nat)
    requires UsableJob(j) && WrittenSoFar(j, before, mid, data, k, 0) && k + count <= |data|
    requires 0 < count <= Limit(j.interface, j.geometry, j.blockSize, j.lba + k)
    requires Place(j, k) + count <= |mid|
    ensures WrittenSoFar(j, before, Splice(mid, Place(j, k), data[k..k + count]), data, k + count, 0)
  {
    var after := Splice(mid, Place(j, k), data[k..k + count]);
    forall p | 0 <= p < |mid| && !(Place(j, k) <= p < Place(j, k) + count) ensures after[p] == mid[p] {
      SpliceIndex(mid, Place(j, k), data[k..k + count], p);
    }
    WrittenMaybe(j, before, mid, after, data, k, count);
    forall b | k <= b < k + count ensures Place(j, b) < |after| && after[Place(j, b)] == data[b] {
      SplicedBlock(j, mid, data, k, count, b);
    }
  }

  lemma SplicedBlock(j: Job, mid: seq<Block>, data: seq<Block>, k: nat, count: nat, b: nat)
    requires UsableJob(j) && k <= b < k + count <= |data| && Place(j, k) + count <= |mid|
    requires count <= Limit(j.interface, j.geometry, j.blockSize, j.lba + k)
    ensures Place(j, b) < |mid| && Splice(mid, Place(j, k), data[k..k + count])[Place(j, b)] == data[b]
  {
    PlaceInPiece(j, k, count, b);
    SpliceIndex(mid, Place(j, k), data[k..k + count], Place(j, b));
  }

  // A piece that was asked to be written
  lemma PieceWritten(j: Job, before: seq<Block>, mid: seq<Block>, now: seq<Block>, data: seq<Block>, k: nat, count: nat,
                     changed: bool, failed: bool)
    requires UsableJob(j) && WrittenSoFar(j, before, mid, data, k, 0) && k + count <= |data|
    requires 0 < count <= Limit(j.interface, j.geometry, j.blockSize, j.lba + k) && j.lba + k + count <= |mid|
    requires !changed ==> SameOutside(mid, now, Place(j, k), count)
    requires !failed ==> now == Splice(mid, Place(j, k), data[k..k + count])
    ensures !changed ==> WrittenSoFar(j, before, now, data, k, count)
    ensures !failed ==> |now| == |mid| && WrittenSoFar(j, before, now, data, k + count, 0)
  {
    if !changed {
      WrittenMaybe(j, before, mid, now, data, k, count);
    }
    if !failed {
      WrittenMore(j, before, mid, data, k, count);
    }
  }

  // The next piece of a job, on a disk that holds all of its blocks
  lemma PieceAsked(j: Job, before: seq<Block>, mid: seq<Block>, now: seq<Block>, data: seq<Block>, k: nat, count: nat,
                   piece: seq<Block>, changed: bool, failed: bool)
    requires UsableJob(j) && k < j.n <= |data| && j.lba + j.n <= |mid| && WrittenSoFar(j, before, mid, data, k, 0)
    requires count == PieceSize(j.interface, j.geometry, j.blockSize, j.lba + k, j.n - k)
    requires piece == data[k..k + count]
    requires !changed ==> SameOutside(mid, now, Place(j, k), count)
    requires !failed && Place(j, k) + count <= |mid| ==> now == Splice(mid, Place(j, k), piece)
    ensures !changed ==> WrittenSoFar(j, before, now, data, k, count)
    ensures !failed ==> |now| == |mid| && WrittenSoFar(j, before, now, data, k + count, 0)
  {
    PieceWritten(j, before, mid, now, data, k, count, changed, failed);
  }

  /** Where all blocks are reached at their own places, that part of the disk and no other is written. */
  lemma WrittenAll(j: Job, before: seq<Block>, after: seq<Block>, data: seq<Block>)
    requires UsableJob(j) && Direct(j) && WrittenSoFar(j, before, after, data, j.n, 0)
    requires j.n <= |data| && j.lba + j.n <= |before|
    ensures after == Splice(before, j.lba, data[..j.n])
  {
    forall p | 0 <= p < |before| ensures after[p] == if j.lba <= p < j.lba + j.n then data[p - j.lba] else before[p] {
      WrittenAt(j, before, after, data, p);
    }
    SpliceAt(before, after, j.lba, data[..j.n]);
  }

  lemma WrittenAt(j: Job, before: seq<Block>, after: seq<Block>, data: seq<Block>, p: nat)
    requires UsableJob(j) && Direct(j) && WrittenSoFar(j, before, after, data, j.n, 0) && p < |before|
    ensures after[p] == if j.lba <= p < j.lba + j.n then data[p - j.lba] else before[p]
  {
    if j.lba <= p < j.lba + j.n {
      OwnPlace(j, p - j.lba);
    } else {
      NotReached(j, p);
    }
  }

  lemma OwnPlace(j: Job, b: nat)
    requires UsableJob(j) && Direct(j) && b < j.n
    ensures Place(j, b) == j.lba + b && Spares(j, b + 1, j.n, Place(j, b))
  {
    DirectPlace(j, b);
    forall c | b + 1 <= c < j.n ensures Place(j, c) != Place(j, b) {
      DirectPlace(j, c);
    }
  }

  lemma NotReached(j: Job, p: nat)
    requires UsableJob(j) && Direct(j) && !(j.lba <= p < j.lba + j.n)
    ensures Spares(j, 0, j.n, p)
  {
    forall c | 0 <= c < j.n ensures Place(j, c) != p {
      DirectPlace(j, c);
    }
  }

  // No two blocks of a job are at one place
  ghost predicate Spread(j: Job)
    requires UsableJob(j)
  {
    forall b :: 0 <= b < j.n ==> Spares(j, b + 1, j.n, Place(j, b))
  }

  /** They never are over an extended interface, and over a legacy one if there are no more than 1024 cylinders have. */
  lemma SpreadIff(j: Job)
    requires UsableJob(j)
    ensures Spread(j) <==> j.interface != Legacy || j.n <= j.reach
  {
    if j.interface != Legacy || j.n <= j.reach {
      forall b | 0 <= b < j.n ensures Spares(j, b + 1, j.n, Place(j, b)) {
        forall c | b + 1 <= c < j.n ensures Place(j, c) != Place(j, b) {
          if j.interface == Legacy {
            WrappedApart(j.lba + b, c - b, j.reach);
          }
        }
      }
    } else {
      WrappedTurn(j.lba, j.reach);
      assert Place(j, j.reach) == Place(j, 0);
    }
  }

  /** What is read after a write is what was written last to the place of each block. */
  lemma ReadBackWritten(j: Job, disk: seq<Block>, now: seq<Block>, data: seq<Block>, before: seq<Block>,
                        after: seq<Block>)
    requires UsableJob(j) && j.n <= |data| && j.n <= |after|
    requires WrittenSoFar(j, disk, now, data, j.n, 0) && ReadSoFar(j, now, before, after, j.n, 0)
    ensures forall b :: 0 <= b < j.n && Spares(j, b + 1, j.n, Place(j, b)) ==> after[b] == data[b]
    ensures j.interface != Legacy || j.n <= j.reach ==> after[..j.n] == data[..j.n]
  {
    SpreadIff(j);
    if Spread(j) {
      forall b | 0 <= b < j.n ensures after[b] == data[b] {
        assert Spares(j, b + 1, j.n, Place(j, b));
      }
    }
  }
}
