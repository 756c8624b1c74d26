/** The flat disk the file system sees: an array of sectors that are read and written whole. */
module SectorDisks {
  import opened Bytes

  const SectorSize := 128
  const NumSectors := 1024

  type Sector = s: seq<byte> | |s| == SectorSize witness seq(SectorSize, i => 0)

  const BlankSector: Sector := seq(SectorSize, i => 0)

  const BlankImage: seq<Sector> := seq<Sector>(NumSectors, i => BlankSector)

  /** The contents of the whole disk at one moment. */
  type Image = d: seq<Sector> | |d| == NumSectors witness BlankImage

  class SectorDisk {
    const sectors: array<Sector>

    ghost predicate Valid()
      reads this
    {
      sectors.Length == NumSectors
    }

    ghost function Contents(): Image
      requires Valid()
      reads this, sectors
    {
      sectors[..]
    }

    /** A disk on which nothing is known about what the sectors hold. */
    constructor ()
      ensures Valid() && fresh(sectors)
    {
      sectors := new Sector[NumSectors](i => BlankSector);
    }

    /** Copies sector `s` into `data`, from index `at` on. */
    method ReadSector(s: nat, data: array<byte>, at: nat)
      requires Valid() && s < NumSectors && at + SectorSize <= data.Length
      modifies data
      ensures data[..] == Splice(old(data[..]), at, Contents()[s])
    {
      Bcopy(sectors[s], data, at);
    }

    /** Stores the `SectorSize` bytes of `data` from index `at` on in sector `s`. */
    method WriteSector(s: nat, data: array<byte>, at: nat)
      requires Valid() && s < NumSectors && at + SectorSize <= data.Length
      modifies sectors
      ensures Contents() == old(Contents())[s := data[at..at + SectorSize]]
    {
      sectors[s] := data[at..at + SectorSize];
    }
  }
}
