/** A value together with its lazily packed bytes and checksum. */
module CrcCaches {
  import opened Bytes
  import opened Crc8
  import opened Formats

  class WithCrc<T> {
    const format: Format<T>
    const val: T

    var cacheBytes: Option<seq<byte>>
    var cacheChecksum: Option<byte>

    /** A filled cache holds what would be computed now. */
    ghost predicate Valid()
      reads this
    {
      && (cacheBytes.Some? ==> cacheBytes.value == format.pack(val))
      && (cacheChecksum.Some? ==> cacheChecksum.value == Checksum(format.pack(val)))
    }

    constructor (format: Format<T>, val: T)
      ensures Valid() && this.format == format && this.val == val
    {
      this.format := format;
      this.val := val;
      cacheBytes := None;
      cacheChecksum := None;
    }

    method PayloadBytes() returns (bytes: seq<byte>)
      requires Valid()
      modifies this
      ensures Valid() && bytes == format.pack(val) && cacheBytes == Some(bytes)
      ensures cacheChecksum == old(cacheChecksum)
    {
      if cacheBytes.None? {
        cacheBytes := Some(format.pack(val));
      }
      return cacheBytes.value;
    }

    method GetChecksum() returns (crc: byte)
      requires Valid()
      modifies this
      ensures Valid() && crc == Checksum(format.pack(val)) && cacheChecksum == Some(crc)
    {
      if cacheChecksum.None? {
        var payload := PayloadBytes();
        cacheChecksum := Some(Checksum(payload));
      }
      return cacheChecksum.value;
    }

    /** `output` must hold the packed size; one byte more is reported as too small, anything else is out of bounds. */
    method PackToSlice(output: array<byte>) returns (r: Packing<()>)
      requires Valid()
      requires output.Length - |format.pack(val)| - 1 in {0, 1}
      modifies this, output
      ensures Valid()
      ensures r == (if output.Length == |format.pack(val)| + 1 then Ok(()) else Err(BufferTooSmall))
      ensures r.Ok? ==> output[..] == Checked(format).pack(val)
      ensures r.Err? ==> output[..] == old(output[..])
    {
      var payload := PayloadBytes();
      var size := |payload| + 1;
      var splitPoint := SplitPoint(output[..]);
      if size - splitPoint != 1 {
        return Err(BufferTooSmall);
      }
      for i := 0 to |payload|
        invariant Valid() && output[..i] == payload[..i]
      {
        output[i] := payload[i];
      }
      var crc := GetChecksum();
      output[splitPoint] := crc;
      assert output[..|payload|] == payload;
      return Ok(());
    }

    method PackToVec() returns (v: seq<byte>)
      requires Valid()
      modifies this
      ensures Valid() && v == Checked(format).pack(val)
    {
      var payload := PayloadBytes();
      var buffer := new byte[|payload| + 1](_ => 0);
      var r := PackToSlice(buffer);
      return buffer[..];
    }

    /** Parses, packs what was parsed, and compares checksums. */
    static method UnpackFromSlice(format: Format<T>, src: seq<byte>) returns (r: Packing<WithCrc<T>>)
      ensures match Checked(format).unpack(src)
              case Err(e) => r == Err(e)
              case Ok(v) => r.Ok? && fresh(r.value) && r.value.Valid() && r.value.val == v && r.value.format == format
    {
      var payload, checksum := src[..SplitPoint(src)], src[SplitPoint(src)..];
      if |checksum| != 1 {
        return Err(BufferTooSmall);
      }
      var parsed := format.unpack(payload);
      if parsed.Err? {
        return Err(parsed.error);
      }
      var result := new WithCrc<T>(format, parsed.value);
      var computed := result.GetChecksum();
      if checksum[0] != computed {
        return Err(InvalidValue);
      }
      return Ok(result);
    }
  }
}
