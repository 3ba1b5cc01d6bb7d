/** A VHDX file with its log's updates laid over it in memory (`_vhdx_read`, and the laying down of
    updates in `_vhdx_replay`). */
module VhdxOverlay {
  import opened Bits
  import opened Prelude

  const SECTOR: nat := 4096

  /** What a log entry writes to the file: zeros, or one sector of data. */
  datatype Update = ZeroRange(offset: nat, length: nat) | DataSector(offset: nat, content: seq<byte>) {
    /** As an entry that passed its checks gives it. */
    ghost predicate Aligned()
    {
      && offset % SECTOR == 0
      && (ZeroRange? ==> length % SECTOR == 0)
      && (DataSector? ==> |content| == SECTOR)
    }

    function Length(): nat { if ZeroRange? then length else SECTOR }

    predicate Covers(i: nat) { offset <= i < offset + Length() }

    function ByteAt(i: nat): byte
      requires Aligned() && Covers(i)
    {
      if ZeroRange? then 0 else content[i - offset]
    }
  }

  ghost predicate AllAligned(us: seq<Update>) { forall i :: 0 <= i < |us| ==> us[i].Aligned() }

  // ---- the file the log describes ----

  /** Past its end a file reads as zeros. */
  function FileByte(file: seq<byte>, i: nat): byte { if i < |file| then file[i] else 0 }

  /** A seek and a read of the file, extended with zeros to what was asked for. */
  function FileRead(file: seq<byte>, offset: nat, n: nat): (data: seq<byte>)
    ensures |data| == n && forall i :: 0 <= i < n ==> data[i] == FileByte(file, offset + i)
  {
    var data := file[Min(offset, |file|)..Min(offset + n, |file|)];
    data + Zeros(n - |data|)
  }

  /** Byte `i` of the zero-extended file after writing the updates to it, in order. */
  ghost function Patched(file: seq<byte>, us: seq<Update>, i: nat): byte
    requires AllAligned(us)
    decreases |us|
  {
    if us == [] then FileByte(file, i)
    else
      var last := us[|us| - 1];
      if last.Covers(i) then last.ByteAt(i) else Patched(file, us[..|us| - 1], i)
  }

  /** Writing the same updates again changes nothing more. */
  lemma {:induction false} PatchedTwice(file: seq<byte>, us: seq<Update>, again: seq<Update>, i: nat)
    requires AllAligned(us) && AllAligned(again) && again <= us
    ensures Patched(file, us + again, i) == Patched(file, us, i) || exists k :: |again| <= k < |us| && us[k].Covers(i)
    decreases |again|
  {
    if again == [] {
      assert us + again == us;
    } else {
      var last := again[|again| - 1];
      var less := again[..|again| - 1];
      assert (us + again)[..|us + again| - 1] == us + less;
      if last.Covers(i) {
        LastCover(file, us, i, |again| - 1);
      } else {
        PatchedTwice(file, us, less, i);
      }
    }
  }

  /** The last update that covers a byte decides it. */
  lemma {:induction false} LastCover(file: seq<byte>, us: seq<Update>, i: nat, k: nat)
    requires AllAligned(us) && k < |us| && us[k].Covers(i)
    ensures Patched(file, us, i) == us[k].ByteAt(i) || exists j :: k < j < |us| && us[j].Covers(i)
    decreases |us|
  {
    var n := |us| - 1;
    if k < n && !us[n].Covers(i) {
      LastCover(file, us[..n], i, k);
      if j :| k < j < n && us[..n][j].Covers(i) {
        assert us[j].Covers(i);
      }
    } else if k < n {
      assert us[n].Covers(i);
    }
  }

  /** Replaying a log twice is replaying it once. */
  lemma ReplayTwice(file: seq<byte>, us: seq<Update>, i: nat)
    requires AllAligned(us)
    ensures Patched(file, us + us, i) == Patched(file, us, i)
  {
    PatchedTwice(file, us, us, i);
  }

  // ---- the overlay ----

  /** Sectors by offset: their content, or none for a sector of zeros. */
  type Overlay = map<nat, Option<seq<byte>>>

  ghost predicate OverlayOk(o: Overlay)
  {
    forall s :: s in o ==> s % SECTOR == 0 && (o[s].Some? ==> |o[s].value| == SECTOR)
  }

  /** The start of the sector that holds byte `i`. */
  function Floor(i: nat): (s: nat)
    ensures s % SECTOR == 0 && s <= i < s + SECTOR
  {
    i - i % SECTOR
  }

  lemma FloorIs(s: nat, i: nat)
    requires s % SECTOR == 0 && s <= i < s + SECTOR
    ensures Floor(i) == s
  {
    var a, q := s / SECTOR, i / SECTOR;
    assert s == SECTOR * a && i == SECTOR * q + i % SECTOR;
    assert a == q;
  }

  /** The byte an overlay gives at `i`. */
  function Laid(o: Overlay, file: seq<byte>, i: nat): byte
    requires OverlayOk(o)
  {
    var s := Floor(i);
    if s !in o then FileByte(file, i)
    else if o[s].None? then 0
    else o[s].value[i - s]
  }

  /** The overlay and the updates say the same of every byte. */
  ghost predicate Represents(o: Overlay, us: seq<Update>)
  {
    && OverlayOk(o) && AllAligned(us)
    && forall file: seq<byte>, i: nat :: Laid(o, file, i) == Patched(file, us, i)
  }

  /** The first `k` bytes of an update are laid over what was there. */
  ghost predicate PartlyLaid(o: Overlay, before: Overlay, u: Update, k: nat)
  {
    && u.Aligned() && OverlayOk(o) && OverlayOk(before)
    && (forall s :: s in o <==> s in before || (s % SECTOR == 0 && u.offset <= s < u.offset + k))
    && (forall s :: s in o ==>
          o[s] == if u.offset <= s < u.offset + k then (if u.ZeroRange? then None else Some(u.content)) else before[s])
  }

  lemma LaidByte(o: Overlay, before: Overlay, u: Update, file: seq<byte>, i: nat)
    requires PartlyLaid(o, before, u, u.Length())
    ensures Laid(o, file, i) == if u.Covers(i) then u.ByteAt(i) else Laid(before, file, i)
  {
    hide Floor;
    SameSector(u.offset, u.Length(), i);
    if u.DataSector? && u.Covers(i) {
      FloorIs(u.offset, i);
    }
  }

  lemma SameSector(offset: nat, length: nat, i: nat)
    requires offset % SECTOR == 0 && length % SECTOR == 0
    ensures offset <= i < offset + length <==> offset <= Floor(i) < offset + length
  {
    var a, b, q := offset / SECTOR, length / SECTOR, i / SECTOR;
    assert offset == SECTOR * a && length == SECTOR * b && Floor(i) == SECTOR * q;
  }

  class VhdxFile {
    const file: seq<byte>
    var overlay: Overlay
    var extent: nat
    ghost var replayed: seq<Update>

    ghost predicate Valid()
      reads this
    {
      Represents(overlay, replayed)
    }

    constructor (file: seq<byte>)
      ensures Valid() && this.file == file && replayed == [] && extent == 0 && overlay == map[]
    {
      this.file := file;
      this.overlay, this.extent, this.replayed := map[], 0, [];
    }

    /** One update laid down, sector by sector. */
    method Lay(u: Update)
      requires Valid() && u.Aligned()
      modifies this`overlay, this`replayed
      ensures Valid() && replayed == old(replayed) + [u]
    {
      var length := if u.ZeroRange? then u.length else |u.content|;
      var k := 0;
      while k < length
        invariant k % SECTOR == 0 && k <= length && replayed == old(replayed)
        invariant PartlyLaid(overlay, old(overlay), u, k)
      {
        LayOne(overlay, old(overlay), u, k);
        overlay := overlay[u.offset + k := if u.DataSector? then Some(u.content[k..k + SECTOR]) else None];
        k := k + SECTOR;
      }
      replayed := replayed + [u];
      forall f: seq<byte>, i: nat
        ensures Laid(overlay, f, i) == Patched(f, replayed, i)
      {
        LaidByte(overlay, old(overlay), u, f, i);
        assert replayed[..|replayed| - 1] == old(replayed);
        assert Laid(old(overlay), f, i) == Patched(f, old(replayed), i);
      }
    }

    lemma LayOne(o: Overlay, before: Overlay, u: Update, k: nat)
      requires PartlyLaid(o, before, u, k) && k % SECTOR == 0 && k < u.Length()
      ensures k + SECTOR <= u.Length() && (k + SECTOR) % SECTOR == 0
      ensures u.DataSector? ==> k == 0 && u.content[k..k + SECTOR] == u.content
      ensures PartlyLaid(o[u.offset + k := if u.DataSector? then Some(u.content) else None], before, u, k + SECTOR)
    {
      var a, b := k / SECTOR, u.Length() / SECTOR;
      assert k == SECTOR * a && u.Length() == SECTOR * b;
      forall s: nat | s % SECTOR == 0 && u.offset + k <= s < u.offset + k + SECTOR
        ensures s == u.offset + k
      {
        FloorIs(u.offset + k, s);
        FloorIs(s, s);
      }
      assert (u.offset + k) % SECTOR == 0;
    }

    /** The bytes below `upTo` are as the overlay has them, the others still as the file does. */
    ghost predicate ReadTo(data: seq<byte>, offset: nat, n: nat, upTo: nat)
      requires OverlayOk(overlay)
      reads this
    {
      && |data| == n
      && forall i :: 0 <= i < n ==>
           data[i] == if offset + i < upTo then Laid(overlay, file, offset + i) else FileByte(file, offset + i)
    }

    /** The content the overlay gives a sector. */
    function Content(sector: nat): (c: seq<byte>)
      requires OverlayOk(overlay) && sector in overlay
      reads this
      ensures |c| == SECTOR
    {
      if overlay[sector].Some? then overlay[sector].value else Zeros(SECTOR)
    }

    lemma NextSector(data: seq<byte>, offset: nat, n: nat, sector: nat, next: seq<byte>)
      requires OverlayOk(overlay) && ReadTo(data, offset, n, sector)
      requires StartsSector(sector) && offset < sector + SECTOR && sector < offset + n
      requires var a, b := Max(sector, offset), Min(sector + SECTOR, offset + n);
        next == if sector in overlay then Splice(data, a - offset, b - offset, Content(sector)[a - sector..b - sector])
                else data
      ensures ReadTo(next, offset, n, sector + SECTOR) && StartsSector(sector + SECTOR)
    {
      hide Floor, FileByte, Laid, Content, Splice, OverlayOk;
      forall i | 0 <= i < n
        ensures next[i] == if offset + i < sector + SECTOR then Laid(overlay, file, offset + i)
                           else FileByte(file, offset + i)
      {
        if sector <= offset + i < sector + SECTOR {
          SectorByte(sector, offset + i);
        }
      }
    }

    ghost predicate StartsSector(s: nat) { s % SECTOR == 0 }

    lemma SectorByte(sector: nat, i: nat)
      requires OverlayOk(overlay) && sector % SECTOR == 0 && sector <= i < sector + SECTOR
      ensures Laid(overlay, file, i) == if sector in overlay then Content(sector)[i - sector] else FileByte(file, i)
    {
      hide Floor, FileByte;
      FloorIs(sector, i);
    }

    /** One sector of the overlay laid over what was read. */
    method PatchSector(before: seq<byte>, offset: nat, n: nat, sector: nat) returns (data: seq<byte>)
      requires OverlayOk(overlay) && |before| == n && ReadTo(before, offset, n, sector)
      requires StartsSector(sector) && offset < sector + SECTOR && sector < offset + n
      ensures |data| == n && ReadTo(data, offset, n, sector + SECTOR) && StartsSector(sector + SECTOR)
    {
      hide Laid, Floor, FileByte, Splice, StartsSector, ReadTo, OverlayOk, Content;
      data := before;
      if sector in overlay {
        var content := Content(sector);
        var a, b := Max(sector, offset), Min(sector + SECTOR, offset + n);
        data := Splice(data, a - offset, b - offset, content[a - sector..b - sector]);
      }
      NextSector(before, offset, n, sector, data);
    }

    /** `_vhdx_read`: `n` bytes at `offset`, whatever the updates overlap. */
    method Read(offset: nat, n: nat) returns (data: seq<byte>)
      requires Valid()
      ensures |data| == n && forall i :: 0 <= i < n ==> data[i] == Patched(file, replayed, offset + i)
    {
      hide Laid, Patched, Floor, FileRead, FileByte, StartsSector, ReadTo, Represents, OverlayOk, Valid;
      ValidRead();
      data := FileRead(file, offset, n);
      StartRead(data, offset, n);
      if overlay != map[] {
        var sector := Floor(offset);
        while sector < offset + n
          invariant StartsSector(sector) && offset < sector + SECTOR && |data| == n && ReadTo(data, offset, n, sector)
        {
          data := PatchSector(data, offset, n, sector);
          sector := sector + SECTOR;
        }
        EndRead(data, offset, n, sector);
      } else {
        NothingLaid();
        EndRead(data, offset, n, Floor(offset));
      }
    }

    lemma ValidRead()
      requires Valid()
      ensures OverlayOk(overlay)
    {
    }

    /** Nothing below the first sector is asked for, so the file as it is will do. */
    lemma StartRead(data: seq<byte>, offset: nat, n: nat)
      requires OverlayOk(overlay) && data == FileRead(file, offset, n)
      ensures StartsSector(Floor(offset)) && ReadTo(data, offset, n, Floor(offset))
    {
      hide FileByte;
    }

    lemma EndRead(data: seq<byte>, offset: nat, n: nat, upTo: nat)
      requires Valid() && OverlayOk(overlay) && ReadTo(data, offset, n, upTo)
      requires upTo >= offset + n || forall i :: Laid(overlay, file, i) == FileByte(file, i)
      ensures |data| == n && forall i :: 0 <= i < n ==> data[i] == Patched(file, replayed, offset + i)
    {
      hide Laid, Patched, FileByte, Floor;
      forall i | 0 <= i < n
        ensures data[i] == Patched(file, replayed, offset + i)
      {
        assert Laid(overlay, file, offset + i) == Patched(file, replayed, offset + i);
      }
    }

    lemma NothingLaid()
      requires overlay == map[]
      ensures forall i :: Laid(overlay, file, i) == FileByte(file, i)
    {
    }
  }
}
