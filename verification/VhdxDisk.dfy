/** Opening a VHDX (the replay and the block table of `_index_vhdx`) and reading it: the disk that the
    file describes once its log is applied to it. */
module VhdxDisk {
  import opened Bits
  import opened Prelude
  import opened Struct
  import opened Division
  import opened BitArithmetic
  import opened VhdxBat
  import opened VhdxOverlay
  import opened VhdxReplay
  import opened DiskMaps
  import DiskLayers
  import VhdxEntry
  import VhdxLog

  /** What the header, region and metadata tables say. */
  datatype Geometry = Geometry(size: nat, block: nat, logical: nat, batOffset: nat, batLength: nat, hasParent: bool) {
    predicate Sound()
    {
      Sizes(block, logical) && size % logical == 0
    }

    function BlockRatio(): (r: nat)
      requires Sound()
      ensures r > 0
    {
      RatioExact(block, logical);
      Ratio(block, logical)
    }

    function Blocks(): (n: nat)
      requires Sound() && size > 0
      ensures n > 0
    {
      CeilDiv(size, block)
    }

    function TableEntries(): nat
      requires Sound() && size > 0
    {
      Entries(Blocks(), BlockRatio(), hasParent)
    }
  }

  // ---- the file with its log applied ----

  /** The updates that replay lays down; none when the header names no log. */
  ghost function LogUpdates(file: seq<byte>, guid: seq<byte>, logOffset: nat, logLength: nat): (r: Option<seq<Update>>)
    requires |guid| == 16
    ensures r.Some? ==> AllAligned(r.value)
  {
    if guid == Zeros(16) then Some([])
    else
      match Outcome(file, guid, logOffset, logLength)
      case NoReplay => None
      case Replayed(entries) =>
        OutcomeAligned(file, guid, logOffset, logLength);
        Some(UpdatesOf(entries))
  }

  /** How far the file reaches with what its log says of it. */
  ghost function LogReach(file: seq<byte>, guid: seq<byte>, logOffset: nat, logLength: nat): nat
    requires |guid| == 16
  {
    if guid == Zeros(16) then |file|
    else
      match Outcome(file, guid, logOffset, logLength)
      case NoReplay => |file|
      case Replayed(entries) => Max(|file|, ExtentOf(entries, 0))
  }

  lemma OutcomeAligned(file: seq<byte>, guid: seq<byte>, logOffset: nat, logLength: nat)
    requires |guid| == 16 && Outcome(file, guid, logOffset, logLength).Replayed?
    ensures AllAligned(UpdatesOf(Outcome(file, guid, logOffset, logLength).entries))
  {
    hide VhdxLog.Active, VhdxLog.Linked, VhdxLog.From, VhdxEntry.EntryAt;
    var log := VhdxEntry.Log(file[logOffset..logOffset + logLength], guid);
    RingValid(log);
    VhdxLog.ActiveIs(log);
    var best := VhdxLog.Active(log).value;
    LinkedSuffix(log, best, StartIndex(best, 0));
    LinkedAligned(log, best[StartIndex(best, 0)..]);
  }

  /** Eight bytes of that file, as a number. */
  ghost function Word(file: seq<byte>, us: seq<Update>, at: nat): nat
    requires AllAligned(us)
  {
    LeValue(seq<byte>(8, j requires 0 <= j < 8 => Patched(file, us, at + j)))
  }

  ghost function Words(file: seq<byte>, us: seq<Update>, at: nat, n: nat): (words: seq<nat>)
    requires AllAligned(us)
    ensures |words| == n && forall k :: 0 <= k < n ==> words[k] == Word(file, us, at + 8 * k)
  {
    seq(n, k requires 0 <= k < n => Word(file, us, at + 8 * k))
  }

  /** The block table it holds. */
  ghost function TableOf(file: seq<byte>, us: seq<Update>, g: Geometry): (bat: seq<nat>)
    requires AllAligned(us) && g.Sound() && g.size > 0
    ensures |bat| == g.TableEntries()
  {
    Words(file, us, g.batOffset, g.TableEntries())
  }

  /** The tests on one block's entry: its state, and the place of one that is stored. */
  predicate BlockOk(bat: seq<nat>, g: Geometry, reach: nat, i: nat)
    requires g.Sound() && PayloadIndex(g.BlockRatio(), i) < |bat|
  {
    var entry := bat[PayloadIndex(g.BlockRatio(), i)];
    var state, at := Low(entry, 3), Shr(entry, 20) * DiskMaps.MIB;
    && state != 4 && state != 5 && (state == 7 ==> g.hasParent)
    && (state == 6 || state == 7 ==> at >= DiskMaps.MIB && at + Min(g.block, g.size - i * g.block) <= reach)
  }

  ghost predicate TableOk(bat: seq<nat>, g: Geometry, reach: nat)
    requires g.Sound() && g.size > 0 && |bat| == g.TableEntries()
  {
    forall i: nat | i < g.Blocks() :: PayloadIndex(g.BlockRatio(), i) < |bat| && BlockOk(bat, g, reach, i)
  }

  /** The tests in numbers: sizes of powers of two from one to 256 megabytes in sectors of 512 or 4096 bytes; ... */
  lemma SizesAre(g: Geometry)
    ensures g.Sound() <==>
      && g.block in {0x100000, 0x200000, 0x400000, 0x800000, 0x1000000, 0x2000000, 0x4000000, 0x8000000, 0x10000000}
      && (g.logical == 512 || g.logical == 4096) && g.size % g.logical == 0
  {
    hide PowerOfTwo;
    PowersOnly(g.block);
  }

  /** ... as many blocks as hold the disk; ... */
  lemma BlocksAre(g: Geometry, n: nat)
    requires g.Sound() && n * g.block < g.size <= n * g.block + g.block
    ensures g.Blocks() == n + 1
  {
    hide Div, Mod, PowerOfTwo;
    DivUnique(g.size - 1, g.block, n, g.size - 1 - n * g.block);
  }

  lemma PowersOnly(block: nat)
    ensures PowerOfTwo(block) && 0x100000 <= block <= 0x10000000 <==>
      block in {0x100000, 0x200000, 0x400000, 0x800000, 0x1000000, 0x2000000, 0x4000000, 0x8000000, 0x10000000}
  {
    hide Pow2, BitLength;
    LargePowers();
    Bits2Powers();
    if PowerOfTwo(block) && 0x100000 <= block <= 0x10000000 {
      var b := BitLength(block) - 1;
      if b < 20 {
        Pow2Mono(b + 1, 20);
        Pow2Next(b);
      } else if b > 28 {
        Pow2Mono(29, b);
        Pow2Next(28);
      }
    }
  }

  lemma Bits2Powers()
    ensures forall b: nat | 20 <= b <= 28 :: BitLength(Pow2(b)) == b + 1
  {
    hide Pow2, BitLength;
    forall b: nat | 20 <= b <= 28
      ensures BitLength(Pow2(b)) == b + 1
    {
      BitLengthPow2(b);
    }
  }

  /** ... an entry for each block and for every `ratio` of them one more, of whole rows when there is a parent; ... */
  lemma EntriesAre(g: Geometry, ratio: nat, row: nat, c: nat)
    requires g.Sound() && g.size > 0 && ratio * g.block == 0x800000 * g.logical && c < ratio
    requires g.Blocks() == row * ratio + c + 1
    ensures g.TableEntries() == if g.hasParent then (row + 1) * (ratio + 1) else row * ratio + c + 1 + row
  {
    hide Div, BitLength, Pow2;
    DivUnique(0x800000 * g.logical, g.block, ratio, 0);
    DivUnique(row * ratio + c, ratio, row, c);
  }

  /** ... and for each block a state that a disk like this may have, and bytes past the first megabyte and inside
      what the file reaches. */
  lemma BlockOkIff(bat: seq<nat>, g: Geometry, reach: nat, i: nat)
    requires g.Sound() && PayloadIndex(g.BlockRatio(), i) < |bat|
    ensures
      var entry := bat[PayloadIndex(g.BlockRatio(), i)];
      BlockOk(bat, g, reach, i) <==>
        && entry % 8 != 4 && entry % 8 != 5 && (entry % 8 == 7 ==> g.hasParent)
        && (entry % 8 == 6 || entry % 8 == 7 ==>
              && entry / 0x100000 >= 1
              && entry / 0x100000 * 0x100000 + Min(g.block, g.size - i * g.block) <= reach)
  {
    hide Low, Shr, Pow2, PayloadIndex, Sizes;
    var entry := bat[PayloadIndex(g.BlockRatio(), i)];
    LargePowers();
    ShrIs(entry, 20);
    LowThree(entry);
  }

  /** The map of that file's blocks. */
  ghost predicate MapsFile(x: VhdxMap, file: seq<byte>, us: seq<Update>, g: Geometry)
    requires AllAligned(us) && g.Sound() && g.size > 0
  {
    && x.size == g.size && x.block == g.block && x.logical == g.logical && x.bat == TableOf(file, us, g)
    && forall i: nat :: x.store(i) == Patched(file, us, i)
  }

  // ---- opening ----

  /** The bytes an overlay gives, for any offset. */
  function LaidAny(o: Overlay, file: seq<byte>, i: nat): byte
  {
    var s := Floor(i);
    if s !in o then FileByte(file, i)
    else if o[s].None? then 0
    else if i - s < |o[s].value| then o[s].value[i - s]
    else 0
  }

  /** The file as it reads now. */
  function Snapshot(o: Overlay, file: seq<byte>): nat -> byte { i => LaidAny(o, file, i) }

  lemma SnapshotIs(f: VhdxFile)
    requires f.Valid()
    ensures AllAligned(f.replayed)
    ensures forall i: nat :: Snapshot(f.overlay, f.file)(i) == Patched(f.file, f.replayed, i)
  {
    hide Patched, FileByte;
    forall i: nat
      ensures LaidAny(f.overlay, f.file, i) == Patched(f.file, f.replayed, i)
    {
      assert Laid(f.overlay, f.file, i) == Patched(f.file, f.replayed, i);
    }
  }

  lemma {:induction false} SameFields(s: seq<byte>, n: nat, k: nat)
    requires |s| == 8 * n && k < n
    ensures Width(Same(8, n)) == 8 * n && Unpack(s, Same(8, n))[k] == LeValue(s[8 * k..8 * k + 8])
  {
    hide LeValue;
    SameWidth(8, n);
    SameWidth(8, n - 1);
    assert Same(8, n)[1..] == Same(8, n - 1);
    if k > 0 {
      SameFields(s[8..], n - 1, k - 1);
      assert s[8..][8 * (k - 1)..8 * (k - 1) + 8] == s[8 * k..8 * k + 8];
    }
  }

  /** Each block's entry tested. */
  method TestBlocks(bat: seq<nat>, g: Geometry, reach: nat) returns (ok: bool)
    requires g.Sound() && g.size > 0 && |bat| == g.TableEntries()
    ensures ok <==> TableOk(bat, g, reach)
  {
    hide Sizes, Ratio, CeilDiv, Entries, PayloadIndex, BlockOk;
    var i := 0;
    while i < g.Blocks()
      invariant i <= g.Blocks()
      invariant forall k: nat | k < i :: PayloadIndex(g.BlockRatio(), k) < |bat| && BlockOk(bat, g, reach, k)
    {
      IndicesFit(g.Blocks(), g.BlockRatio(), g.hasParent, i);
      if !BlockOk(bat, g, reach, i) {
        return false;
      }
      i := i + 1;
    }
    ok := true;
  }

  /** The block table read and tested, block by block. */
  method IndexBat(f: VhdxFile, g: Geometry) returns (r: Result<seq<nat>>)
    requires f.Valid() && g.size > 0
    ensures AllAligned(f.replayed)
    ensures r.Ok? <==>
      && g.Sound() && g.batLength >= 8 * g.TableEntries()
      && TableOk(TableOf(f.file, f.replayed, g), g, Max(|f.file|, f.extent))
    ensures r.Ok? ==> r.value == TableOf(f.file, f.replayed, g)
  {
    hide Patched, LeValue, Unpack, Geometry.Sound, Geometry.TableEntries, TableOk, TableOf, VhdxFile.Valid;
    SnapshotIs(f);
    if !g.Sound() {
      return Raised;
    }
    var entries := g.TableEntries();
    if g.batLength < 8 * entries {
      return Raised;
    }
    var raw := f.Read(g.batOffset, 8 * entries);
    SameWidth(8, entries);
    var bat := Unpack(raw, Same(8, entries));
    TableRead(f.file, f.replayed, g, raw, bat);
    var ok := TestBlocks(bat, g, Max(|f.file|, f.extent));
    if !ok {
      return Raised;
    }
    r := Ok(bat);
  }

  lemma TableRead(file: seq<byte>, us: seq<Update>, g: Geometry, raw: seq<byte>, bat: seq<nat>)
    requires AllAligned(us) && g.Sound() && g.size > 0 && |raw| == 8 * g.TableEntries()
    requires Width(Same(8, g.TableEntries())) == |raw| && bat == Unpack(raw, Same(8, g.TableEntries()))
    requires forall i :: 0 <= i < |raw| ==> raw[i] == Patched(file, us, g.batOffset + i)
    ensures bat == TableOf(file, us, g)
  {
    hide Patched, LeValue, Unpack, Sizes, Entries;
    var table := TableOf(file, us, g);
    forall k | 0 <= k < |bat|
      ensures bat[k] == table[k]
    {
      SameFields(raw, g.TableEntries(), k);
      assert raw[8 * k..8 * k + 8] ==
        seq<byte>(8, j requires 0 <= j < 8 => Patched(file, us, g.batOffset + 8 * k + j));
    }
  }

  /** What passes those tests is a disk as the reads of its chunks need it. */
  lemma TableShapes(x: VhdxMap, file: seq<byte>, us: seq<Update>, g: Geometry, reach: nat)
    requires AllAligned(us) && g.Sound() && g.size > 0
    requires MapsFile(x, file, us, g) && TableOk(TableOf(file, us, g), g, reach)
    ensures x.Shaped(g.hasParent)
  {
    hide Patched, TableOf, CeilDiv, Entries, PayloadIndex, Low, Shr, PowerOfTwo;
    RatioExact(g.block, g.logical);
    forall k: nat | k < CeilDiv(x.size, x.block) && PayloadIndex(x.BlockRatio(), k) < |x.bat|
      ensures x.State(k) != 4 && x.State(k) != 5 && (x.State(k) == 7 ==> g.hasParent)
    {
      assert BlockOk(x.bat, g, reach, k);
    }
  }

  /** Opening and reading: the replay when the header names a log, the block table, and a read of the
      disk over its parent. */
  method ReadVhdx(file: seq<byte>, guid: seq<byte>, logOffset: nat, logLength: nat, g: Geometry, parent: Option<Disk>,
                  offset: nat, n: nat)
      returns (d: Result<Disk>, r: Result<seq<byte>>)
    requires |guid| == 16 && g.size > 0 && (g.hasParent <==> parent.Some?)
    requires parent.Some? ==> parent.value.Shaped()
    ensures d.Ok? <==>
      var us := LogUpdates(file, guid, logOffset, logLength);
      && us.Some? && g.Sound() && g.batLength >= 8 * g.TableEntries()
      && TableOk(TableOf(file, us.value, g), g, LogReach(file, guid, logOffset, logLength))
    ensures d.Ok? ==>
      && d.value.VhdxDisk? && d.value.parent == parent && d.value.Shaped()
      && MapsFile(d.value.vhdx, file, LogUpdates(file, guid, logOffset, logLength).value, g)
      && DiskLayers.Reads(d.value, offset, Max(0, Min(n, g.size - offset)), r)
    ensures d.Raised? ==> r.Raised?
  {
    hide Outcome, Patched, TableOk, TableOf, UpdatesOf, ExtentOf, DiskLayers.Reads, VhdxMap.Shaped, Sizes;
    var f := new VhdxFile(file);
    if guid != Zeros(16) {
      var replayed := Replay(f, guid, logOffset, logLength);
      if replayed.Raised? {
        return Raised, Raised;
      }
      assert [] + UpdatesOf(Outcome(file, guid, logOffset, logLength).entries)
          == UpdatesOf(Outcome(file, guid, logOffset, logLength).entries);
    }
    var bat := IndexBat(f, g);
    if bat.Raised? {
      return Raised, Raised;
    }
    SnapshotIs(f);
    var x := VhdxMap(Snapshot(f.overlay, f.file), g.size, g.block, g.logical, bat.value);
    TableShapes(x, file, f.replayed, g, Max(|file|, f.extent));
    d := Ok(VhdxDisk(x, parent));
    r := DiskLayers.ReadDisk(d.value, offset, n);
  }
}
