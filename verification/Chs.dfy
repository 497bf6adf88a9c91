/** Cylinder, head and sector addressing of legacy drives (BlockIoDxe/BiosInt13.c). */
module Chs {
  import opened Arithmetic

  // The largest head, sector and cylinder numbers; sectors count from 1, the others from 0.
  datatype Geometry = Geometry(maxHead: nat, maxSector: nat, maxCylinder: nat)
  datatype Address = Address(cylinder: nat, head: nat, sector: nat)

  function Heads(g: Geometry): nat { g.maxHead + 1 }

  // The address computed for a block
  function Split(g: Geometry, lba: nat): (a: Address)
    requires g.maxSector > 0
    ensures a.head <= g.maxHead && 1 <= a.sector <= g.maxSector
  {
    var track := lba / g.maxSector;
    Address(track / Heads(g), track % Heads(g), lba % g.maxSector + 1)
  }

  // CheckLba: the block computed back from an address
  function Join(g: Geometry, a: Address): int { (a.cylinder * Heads(g) + a.head) * g.maxSector + a.sector - 1 }

  ghost predicate OnDisk(g: Geometry, a: Address) {
    a.cylinder <= g.maxCylinder && a.head <= g.maxHead && 1 <= a.sector <= g.maxSector
  }

  /** The comparison of CheckLba with the block never fails. */
  lemma JoinSplit(g: Geometry, lba: nat)
    requires g.maxSector > 0
    ensures Join(g, Split(g, lba)) == lba
  {
    var track := lba / g.maxSector;
    assert track / Heads(g) * Heads(g) + track % Heads(g) == track;
    assert track * g.maxSector + lba % g.maxSector == lba;
  }

  /** Blocks are numbered sector by sector, head by head and cylinder by cylinder. */
  lemma SplitMeans(g: Geometry, lba: nat)
    requires g.maxSector > 0
    ensures var a := Split(g, lba);
      && 1 <= a.sector <= g.maxSector && a.head <= g.maxHead
      && lba == (a.cylinder * (g.maxHead + 1) + a.head) * g.maxSector + a.sector - 1
  {
    JoinSplit(g, lba);
  }

  lemma SplitJoin(g: Geometry, a: Address)
    requires OnDisk(g, a)
    ensures Join(g, a) >= 0 && Split(g, Join(g, a)) == a
  {
    var track := a.cylinder * Heads(g) + a.head;
    QuotientIs(track * g.maxSector + (a.sector - 1), g.maxSector, track, a.sector - 1);
    QuotientIs(track, Heads(g), a.cylinder, a.head);
  }

  function Capacity(g: Geometry): nat { Heads(g) * g.maxSector * (g.maxCylinder + 1) }

  lemma CapacityTracks(g: Geometry)
    ensures Capacity(g) == (g.maxCylinder + 1) * Heads(g) * g.maxSector
  {
    var c, h, s := g.maxCylinder + 1, Heads(g), g.maxSector;
    assert h * s * c == c * (h * s);
    assert c * (h * s) == c * h * s;
  }

  /** The blocks below the capacity are exactly those with an address on the disk. */
  lemma OnDiskIff(g: Geometry, lba: nat)
    requires g.maxSector > 0
    ensures lba < Capacity(g) <==> OnDisk(g, Split(g, lba))
  {
    CapacityTracks(g);
    var track, c := lba / g.maxSector, g.maxCylinder + 1;
    BelowIff(lba, g.maxSector, c * Heads(g));
    BelowIff(track, Heads(g), c);
  }

  lemma BelowIff(x: nat, p: nat, n: nat)
    requires p > 0
    ensures x < n * p <==> x / p < n
  {
    var q := x / p;
    assert q * p <= x < q * p + p;
    if q < n {
      TimesMonotonic(q + 1, n, p);
      assert (q + 1) * p == q * p + p;
    } else {
      TimesMonotonic(n, q, p);
    }
  }

  // The registers of INT 13h
  datatype Registers = Registers(cl: nat, ch: nat, dh: nat)

  function Encode(a: Address): (r: Registers)
    ensures r.cl < 256 && r.ch < 256 && r.dh < 256
  {
    var upperCylinder := a.cylinder / 0x100 % 0x10 * 0x40;
    Registers((a.sector % 0x40 + upperCylinder % 0x100) % 0x100, a.cylinder % 0x100, a.head % 0x40)
  }

  // How the driver itself reads such registers, in Int13GetDeviceParameters
  function Decode(r: Registers): Address {
    Address(r.dh / 0x40 % 4 * 0x400 + r.cl / 0x40 % 4 * 0x100 + r.ch, r.dh % 0x40, r.cl % 0x40)
  }

  lemma Decoded(a: Address)
    ensures Decode(Encode(a)) == Address(a.cylinder % 0x400, a.head % 0x40, a.sector % 0x40)
  {
    var u, low := a.cylinder / 0x100, a.sector % 0x40;
    UpperBits(u);
    BothParts(low, u % 4);
    CylinderParts(a.cylinder, u);
  }

  lemma UpperBits(u: nat)
    ensures u % 0x10 * 0x40 % 0x100 == u % 4 * 0x40
  {
    var v := u % 0x10;
    assert u == u / 0x10 * 0x10 + v;
    QuotientIs(u, 4, u / 0x10 * 4 + v / 4, v % 4);
    QuotientIs(v * 0x40, 0x100, v / 4, v % 4 * 0x40);
  }

  lemma BothParts(low: nat, high: nat)
    requires low < 0x40 && high < 4
    ensures var cl := (low + high * 0x40) % 0x100; cl / 0x40 % 4 == high && cl % 0x40 == low
  {
    QuotientIs(low + high * 0x40, 0x40, high, low);
  }

  lemma CylinderParts(cylinder: nat, u: nat)
    requires u == cylinder / 0x100
    ensures cylinder % 0x400 == u % 4 * 0x100 + cylinder % 0x100
  {
    assert u == u / 4 * 4 + u % 4;
    QuotientIs(cylinder, 0x400, u / 4, u % 4 * 0x100 + cylinder % 0x100);
  }

  /** What is in them: the low eight bits of the cylinder, its next two above the sector, and the head. */
  lemma RegistersMean(a: Address)
    ensures var r := Encode(a);
      r.ch == a.cylinder % 256 && r.cl == a.sector % 64 + 64 * (a.cylinder / 256 % 4) && r.dh == a.head % 64
  {
    UpperBits(a.cylinder / 0x100);
    var low, high := a.sector % 0x40, a.cylinder / 0x100 % 4;
    QuotientIs(low + high * 0x40, 0x100, 0, low + high * 0x40);
  }

  /** The registers name the address if and only if it is within 1024 cylinders, 64 heads and 63 sectors. */
  lemma EncodesIff(a: Address)
    ensures Decode(Encode(a)) == a <==> a.cylinder < 0x400 && a.head < 0x40 && a.sector < 0x40
  {
    Decoded(a);
    KeptIff(a.cylinder, 0x400);
    KeptIff(a.head, 0x40);
    KeptIff(a.sector, 0x40);
    var d := Decode(Encode(a));
    assert d.cylinder == a.cylinder % 0x400 && d.head == a.head % 0x40 && d.sector == a.sector % 0x40;
  }

  lemma KeptIff(x: nat, m: nat)
    requires m > 0
    ensures x % m == x <==> x < m
  {
  }

  // The block that the registers sent for a block name.
  function Addressed(g: Geometry, lba: nat): int
    requires g.maxSector > 0
  {
    Join(g, Decode(Encode(Split(g, lba))))
  }

  // A geometry that the registers have room for, whatever the number of cylinders
  predicate Encodable(g: Geometry) { 0 < g.maxSector < 0x40 && g.maxHead < 0x40 }

  /** The drive is asked for the block meant if and only if the block lies in the first 1024 cylinders. */
  lemma AddressedIff(g: Geometry, lba: nat)
    requires Encodable(g)
    ensures Addressed(g, lba) == lba <==> Split(g, lba).cylinder < 0x400
  {
    JoinSplit(g, lba);
    SameBlockIff(g, Split(g, lba));
  }

  lemma SameBlockIff(g: Geometry, a: Address)
    requires Encodable(g) && a.head <= g.maxHead && a.sector <= g.maxSector
    ensures Join(g, Decode(Encode(a))) == Join(g, a) <==> a.cylinder < 0x400
  {
    var c := a.cylinder % 0x400;
    KeptBut(g, a);
    if a.cylinder < 0x400 {
      KeptIff(a.cylinder, 0x400);
      assert a.(cylinder := c) == a;
    } else {
      Wraps(g, a, c);
    }
  }

  // Only the number of the cylinder can be lost.
  lemma KeptBut(g: Geometry, a: Address)
    requires Encodable(g) && a.head <= g.maxHead && a.sector <= g.maxSector
    ensures Decode(Encode(a)) == a.(cylinder := a.cylinder % 0x400)
  {
    Decoded(a);
    KeptIff(a.head, 0x40);
    KeptIff(a.sector, 0x40);
    SameBut(a, Decode(Encode(a)));
  }

  lemma SameBut(a: Address, d: Address)
    requires d.cylinder == a.cylinder % 0x400 && d.head == a.head && d.sector == a.sector
    ensures d == a.(cylinder := a.cylinder % 0x400)
  {
  }

  // A smaller cylinder names a smaller block.
  lemma Wraps(g: Geometry, a: Address, c: nat)
    requires c < a.cylinder && g.maxSector > 0
    ensures Join(g, a.(cylinder := c)) < Join(g, a)
  {
    var h := Heads(g);
    TimesMonotonic(c + 1, a.cylinder, h);
    assert (c + 1) * h == c * h + h;
    TimesMonotonic(c * h + a.head + 1, a.cylinder * h + a.head, g.maxSector);
    assert (c * h + a.head + 1) * g.maxSector == (c * h + a.head) * g.maxSector + g.maxSector;
  }

  /** The blocks from lba to the end of its track share its cylinder and head and have consecutive sectors. */
  lemma SameTrack(g: Geometry, lba: nat, i: nat)
    requires g.maxSector > 0 && i <= g.maxSector - Split(g, lba).sector
    ensures Split(g, lba + i) == Split(g, lba).(sector := Split(g, lba).sector + i)
  {
    var track, s := lba / g.maxSector, lba % g.maxSector;
    assert lba == track * g.maxSector + s;
    QuotientIs(lba + i, g.maxSector, track, s + i);
  }

  // The blocks of the first 1024 cylinders
  function Reach(g: Geometry): nat { Capacity(g.(maxCylinder := 0x3ff)) }

  // x modulo m
  function Wrapped(x: nat, m: nat): (r: nat)
    requires m > 0
    ensures r < m && r <= x
    decreases x
  {
    if x < m then x else Wrapped(x - m, m)
  }

  lemma {:induction false} WrappedMeans(x: nat, m: nat)
    requires m > 0
    ensures Wrapped(x, m) == x % m
  {
    if x < m {
      QuotientIs(x, m, 0, x);
    } else {
      WrappedMeans(x - m, m);
      QuotientIs(x, m, (x - m) / m + 1, (x - m) % m);
    }
  }

  lemma {:induction false} WrappedMore(x: nat, m: nat, q: nat)
    requires m > 0 && x < m
    ensures Wrapped(q * m + x, m) == x
    decreases q
  {
    if q > 0 {
      assert q * m + x - m == (q - 1) * m + x;
      WrappedMore(x, m, q - 1);
    }
  }

  // Numbers less than m apart
  lemma {:induction false} WrappedApart(x: nat, d: nat, m: nat)
    requires 0 < d < m
    ensures Wrapped(x + d, m) != Wrapped(x, m)
    decreases x
  {
    if x >= m {
      assert x - m + d == x + d - m;
      WrappedApart(x - m, d, m);
    }
  }

  lemma WrappedTurn(x: nat, m: nat)
    requires m > 0
    ensures Wrapped(x + m, m) == Wrapped(x, m)
  {
  }

  lemma ReachPositive(g: Geometry)
    requires g.maxSector > 0
    ensures Reach(g) == 0x400 * (Heads(g) * g.maxSector) && Reach(g) > 0
  {
  }

  /** The drive is asked for the block meant modulo the number of blocks in 1024 cylinders. */
  lemma AddressedWraps(g: Geometry, lba: nat)
    requires Encodable(g)
    ensures Reach(g) > 0 && Addressed(g, lba) == Wrapped(lba, Reach(g))
  {
    var a := Split(g, lba);
    var q, c := a.cylinder / 0x400, a.cylinder % 0x400;
    JoinSplit(g, lba);
    KeptBut(g, a);
    ReachPositive(g);
    var low := Join(g, a.(cylinder := c));
    JoinBelow(g, a.(cylinder := c));
    JoinMore(g, a, q, c);
    WrappedMore(low, Reach(g), q);
  }

  // An address in the first 1024 cylinders
  lemma JoinBelow(g: Geometry, a: Address)
    requires 0 < g.maxSector && 1 <= a.sector <= g.maxSector && a.head <= g.maxHead && a.cylinder < 0x400
    ensures 0 <= Join(g, a) < Reach(g)
  {
    ReachPositive(g);
    var track := a.cylinder * Heads(g) + a.head;
    TimesMonotonic(a.cylinder + 1, 0x400, Heads(g));
    TimesMonotonic(track + 1, 0x400 * Heads(g), g.maxSector);
    assert 0x400 * Heads(g) * g.maxSector == 0x400 * (Heads(g) * g.maxSector);
    assert (track + 1) * g.maxSector == track * g.maxSector + g.maxSector;
  }

  // 1024 cylinders further
  lemma JoinMore(g: Geometry, a: Address, q: nat, c: nat)
    requires a.cylinder == 0x400 * q + c && g.maxSector > 0
    ensures Join(g, a) == q * Reach(g) + Join(g, a.(cylinder := c))
  {
    ReachPositive(g);
    var h, s := Heads(g), g.maxSector;
    assert a.cylinder * h == 0x400 * q * h + c * h;
    assert (0x400 * q * h + (c * h + a.head)) * s == 0x400 * q * h * s + (c * h + a.head) * s;
    assert 0x400 * q * h * s == q * (0x400 * (h * s));
  }

  // The k-th block after x on its track of s blocks stays k blocks behind it.
  lemma {:induction false} WrappedOnTrack(x: nat, k: nat, s: nat, n: nat, m: nat)
    requires s > 0 && m > 0 && m == s * n && x % s + k < s
    ensures Wrapped(x + k, m) == Wrapped(x, m) + k
    decreases x
  {
    if x < m {
      TrackEndsInside(x, k, s, n, m);
    } else {
      SameRemainder(x, s, n, m);
      WrappedOnTrack(x - m, k, s, n, m);
      assert x - m + k == x + k - m;
    }
  }

  lemma TrackEndsInside(x: nat, k: nat, s: nat, n: nat, m: nat)
    requires s > 0 && m == s * n && x % s + k < s && x < m
    ensures x + k < m
  {
    BelowIff(x, s, n);
    TimesMonotonic(x / s + 1, n, s);
    assert (x / s + 1) * s == x / s * s + s;
  }

  lemma SameRemainder(x: nat, s: nat, n: nat, m: nat)
    requires s > 0 && m == s * n && x >= m
    ensures (x - m) % s == x % s
  {
    var q := x / s;
    assert x == q * s + x % s;
    assert (q - n) * s == q * s - m;
    QuotientIs(x - m, s, q - n, x % s);
  }

  // The sector of a block
  lemma SectorIs(g: Geometry, lba: nat)
    requires g.maxSector > 0
    ensures Split(g, lba).sector == lba % g.maxSector + 1
  {
  }
}
