// The numbers of a scan request (main.c, parse_scan_request), which the JSON codec gives as doubles.
module RequestNumbers {
  import opened Bytes
  import opened Limits
  import opened ChunkedFile

  const INT_MAX: int := 0x7FFF_FFFF

  datatype Number = Finite(value: real) | NotFinite

  datatype Numbers = Numbers(version: int, chunks: int, size: nat)

  /** What a conversion to an integer makes of a number that is not negative. */
  function Whole(x: real): int { x.Floor }

  method InRange(x: Number, max: int) returns (yes: bool)
    ensures yes <==> x.Finite? && 0.0 <= x.value <= max as real
  {
    yes := !(x.NotFinite? || x.value < 0.0 || x.value > max as real);
  }

  /** Accepts a version from 2 on, chunks of 1 MiB, and a size of up to 5 GiB for which the number of
      chunks, at least one, is not off by more than one; fractions are dropped. */
  method ParseNumbers(version: Number, chunkSize: Number, chunks: Number, size: Number) returns (r: Option<Numbers>)
    ensures r.Some? <==>
              && version.Finite? && 2.0 <= version.value <= INT_MAX as real
              && chunkSize.Finite? && CHUNK_SIZE as real <= chunkSize.value < CHUNK_SIZE as real + 1.0
              && chunks.Finite? && 1.0 <= chunks.value <= INT_MAX as real
              && size.Finite? && 0.0 <= size.value <= MAX_PLAINTEXT as real
              && ChunkCountPlausible(size.value.Floor, chunks.value.Floor)
    ensures r.Some? ==> r.value == Numbers(version.value.Floor, chunks.value.Floor, size.value.Floor)
  {
    var versionFits := InRange(version, INT_MAX);
    var chunkSizeFits := InRange(chunkSize, INT_MAX);
    var chunksFit := InRange(chunks, INT_MAX);
    var sizeFits := InRange(size, MAX_PLAINTEXT);
    if !versionFits || !chunkSizeFits || !chunksFit || !sizeFits {
      return None;
    }
    var n := Numbers(Whole(version.value), Whole(chunks.value), Whole(size.value));
    if n.version < METADATA_VERSION || Whole(chunkSize.value) != CHUNK_SIZE || n.chunks <= 0 || n.size > MAX_PLAINTEXT {
      return None;
    }
    var expected := (n.size + CHUNK_SIZE - 1) / CHUNK_SIZE;
    if n.chunks < expected - 1 || n.chunks > expected + 1 {
      return None;
    }
    r := Some(n);
  }
}
