/**
 Unpacking an `.akpkg`: a gzip member whose data is a tar archive. The whole chain returns
 the manifest and the application binary that were packed.
 */
module Package {
  import opened Bits
  import opened Errnos
  import opened Deflate
  import opened DeflateFormat
  import opened Inflaters
  import opened Slices
  import Gzip
  import Tar

  const INT32_LIMIT: nat := 0x8000_0000
  const MAX_DATA: nat := 4 * 1024 * 1024

  /** Conversion of an unsigned 32-bit size to the signed result type. */
  function ToInt32(n: nat): (r: int) {
    if n < INT32_LIMIT then n else n - 2 * INT32_LIMIT
  }

  /** What inflating a gzip member into a buffer of `cap` bytes yields. */
  function Unzip(gz: seq<byte>, cap: nat): (r: Result<seq<byte>>)
    ensures r.Ok? ==> |r.value| <= cap
  {
    match Gzip.Parse(gz)
    case Err(e) => Err(e)
    case Ok(layout) =>
      if layout.isize == 0 || layout.isize > cap then Err(ENOMEM)
      else
        match Inflate(Unpack(gz[layout.start..|gz| - 8]), 0, [], layout.isize)
        case Error(_) => Err(EIO)
        case Done(_, out) => Ok(out)
  }

  /**
   The decompressor: on success the buffer starts with the data, whose length is returned as
   a signed 32-bit number. No byte of the buffer at or past `outCap` is ever written.
   */
  method AkpkgInflate(gz: seq<byte>, out: array<byte>, outCap: nat) returns (r: Result<int>)
    requires outCap <= out.Length
    modifies out
    ensures match Unzip(gz, outCap)
            case Err(e) => r == Err(e)
            case Ok(data) =>
              && r == Ok(if |data| < 0x8000_0000 then |data| else |data| - 0x1_0000_0000)
              && |data| <= outCap && out[..|data|] == data
    ensures out[outCap..] == old(out[..])[outCap..]
  {
    var parsed := Gzip.GzipParse(gz);
    match parsed
    case Err(e) =>
      r := Err(e);
    case Ok(layout) =>
      if layout.isize == 0 || layout.isize > outCap {
        return Err(ENOMEM);
      }
      var s := new Inflater(gz[layout.start..|gz| - 8], out, layout.isize);
      assert s.Output() == [];
      ghost var before := out[..];
      var ok := s.InflateRaw();
      TailKept(before, out[..], s.outPos, outCap);
      if !ok || s.err != 0 {
        r := Err(EIO);
      } else {
        r := Ok(ToInt32(s.outPos));
      }
  }

  lemma TailKept(before: seq<byte>, after: seq<byte>, k: nat, cap: nat)
    requires k <= cap <= |before| == |after| && after[k..] == before[k..]
    ensures after[cap..] == before[cap..]
  {
    assert after[cap..] == after[k..][cap - k..];
    assert before[cap..] == before[k..][cap - k..];
  }

  /** The application binary and the manifest of a package; data over 4 MiB is refused. */
  function Unpackage(pkg: seq<byte>): (r: Result<(seq<byte>, seq<byte>)>)
  {
    if |pkg| < 4 || pkg[0] != 0x1f || pkg[1] != 0x8b then Err(EINVAL)
    else
      var isize := Gzip.LittleEndian(pkg, |pkg| - 4, 4);
      if isize == 0 || isize > MAX_DATA then Err(EINVAL)
      else
        match Unzip(pkg, isize)
        case Err(e) => Err(e)
        case Ok(tar) =>
          match Tar.Extract(tar)
          case Err(e) => Err(e)
          case Ok((w, m)) => Ok((Tar.Contents(tar, Some(w)).value, Tar.Contents(tar, Some(m)).value))
  }

  /** The unpacking part of an installation: the package is inflated into a buffer of its announced size. */
  method UnpackPackage(pkg: seq<byte>) returns (r: Result<(seq<byte>, seq<byte>)>)
    ensures r == Unpackage(pkg)
    ensures |pkg| < 2 || pkg[..2] != [0x1f, 0x8b] ==> r == Err(EINVAL)
  {
    hide Unzip, Tar.Extract, Gzip.LittleEndian, Tar.Contents;
    if |pkg| == 0 {
      return Err(EINVAL);
    }
    if !(|pkg| >= 2 && pkg[0] == 0x1f && pkg[1] == 0x8b) {
      return Err(EINVAL);
    }
    if |pkg| < 4 {
      return Err(EINVAL);
    }
    var isize := Gzip.LittleEndian(pkg, |pkg| - 4, 4);
    if isize == 0 || isize > 4 * 1024 * 1024 {
      return Err(EINVAL);
    }
    var tar := new byte[isize];
    var len := AkpkgInflate(pkg, tar, isize);
    if len.Err? {
      return Err(len.error);
    }
    var data := tar[..len.value];
    var found := Tar.TarExtract(data);
    if found.Err? {
      return Err(found.error);
    }
    var (w, m) := found.value;
    ContentsAre(data, w);
    ContentsAre(data, m);
    return Ok((data[w.pos..w.pos + w.len], data[m.pos..m.pos + m.len]));
  }

  lemma ContentsAre(tar: seq<byte>, s: Tar.Slice)
    requires s.pos + s.len <= |tar|
    ensures Tar.Contents(tar, Some(s)) == Some(tar[s.pos..s.pos + s.len])
  {
  }

  /** Header, DEFLATE bytes carrying the written stream `st`, and a trailer. */
  ghost predicate Framed(gz: seq<byte>, h: Gzip.Header, payload: seq<byte>, trailer: seq<byte>, st: Stream) {
    && h.WellFormed() && |trailer| == 8 && gz == h.Bytes() + payload + trailer
    && st.WellFormed() && st.Written(Unpack(payload), 0) && st.Resolves([])
  }

  /** A gzip member: the trailer announces the size of the data. */
  ghost predicate Member(gz: seq<byte>, h: Gzip.Header, payload: seq<byte>, trailer: seq<byte>, st: Stream) {
    Framed(gz, h, payload, trailer, st) && Gzip.LittleEndian(trailer, 4, 4) == |st.Expand([])|
  }

  /** What becomes of the data when the trailer announces any size: it must fit the buffer, and the data must fit in it. */
  lemma UnzipAnnounced(gz: seq<byte>, h: Gzip.Header, payload: seq<byte>, trailer: seq<byte>, st: Stream, cap: nat)
    requires Framed(gz, h, payload, trailer, st)
    ensures var size := Gzip.LittleEndian(trailer, 4, 4);
            Unzip(gz, cap) == if size == 0 || size > cap then Err(ENOMEM)
                              else if |st.Expand([])| > size then Err(EIO)
                              else Ok(st.Expand([]))
  {
    hide Gzip.Parse, Gzip.Header.Bytes, Gzip.Header.WellFormed, Stream.Written, Stream.WellFormed, Stream.Resolves;
    hide Stream.Expand, Stream.End, Gzip.LittleEndian, Unpack, Inflate;
    Gzip.ParseInverts(h, payload, trailer);
    assert gz[|h.Bytes()|..|gz| - 8] == payload;
    InflateInverts(st, Unpack(payload), 0, st.End(0), [], Gzip.LittleEndian(trailer, 4, 4));
  }

  /** Unzipping a gzip member gives back the data of its stream, for every buffer that holds it. */
  lemma UnzipInverts(gz: seq<byte>, h: Gzip.Header, payload: seq<byte>, trailer: seq<byte>, st: Stream, cap: nat)
    requires Member(gz, h, payload, trailer, st)
    ensures Unzip(gz, cap) == if 1 <= |st.Expand([])| <= cap then Ok(st.Expand([])) else Err(ENOMEM)
  {
    hide Gzip.Header.Bytes, Gzip.Header.WellFormed, Stream.Written, Stream.WellFormed, Stream.Resolves;
    hide Stream.Expand, Gzip.LittleEndian, Unpack, Unzip;
    UnzipAnnounced(gz, h, payload, trailer, st, cap);
  }

  /** An archive followed by its end marker, or by less than a block. */
  predicate IsTar(tar: seq<byte>, a: Tar.Archive) {
    && a.WellFormed() && Standing(tar, 0, a.Bytes()) && Tar.Ends(tar, |a.Bytes()|)
  }

  lemma ExtractInverts(tar: seq<byte>, a: Tar.Archive)
    requires IsTar(tar, a) && |tar| < Tar.SIZE_MOD
    ensures var r := Tar.Extract(tar);
            if a.LastApp().Some? && a.LastManifest().Some?
            then r.Ok? && Tar.Contents(tar, Some(r.value.0)) == a.LastApp() && Tar.Contents(tar, Some(r.value.1)) == a.LastManifest()
            else r == Err(ENOENT)
  {
    hide Tar.Walk, Standing, Tar.Ends, Tar.Archive.WellFormed, Tar.Archive.Bytes, Tar.Archive.LastApp, Tar.Archive.LastManifest;
    Tar.WalkInverts(a, tar, 0, Tar.Found(None, None));
  }

  /** What becomes of a framed package: its announced size, its data and its archive decide, in this order. */
  lemma UnpackageAnnounced(gz: seq<byte>, h: Gzip.Header, payload: seq<byte>, trailer: seq<byte>, st: Stream)
    requires Framed(gz, h, payload, trailer, st)
    ensures var size := Gzip.LittleEndian(trailer, 4, 4);
            if size == 0 || size > 4194304 then Unpackage(gz) == Err(EINVAL)
            else if |st.Expand([])| > size then Unpackage(gz) == Err(EIO)
            else Unpackage(gz) == Extracted(st.Expand([]))
  {
    hide Unzip, Tar.Extract, Stream.Written, Stream.WellFormed, Stream.Resolves, Stream.Expand;
    hide Gzip.Header.Bytes, Gzip.Header.WellFormed, Gzip.LittleEndian;
    MemberFrame(gz, h, payload, trailer);
    UnzipAnnounced(gz, h, payload, trailer, st, Gzip.LittleEndian(trailer, 4, 4));
  }

  /** The two files of an archive. */
  function Extracted(tar: seq<byte>): (r: Result<(seq<byte>, seq<byte>)>) {
    match Tar.Extract(tar)
    case Err(e) => Err(e)
    case Ok((w, m)) => Ok((tar[w.pos..w.pos + w.len], tar[m.pos..m.pos + m.len]))
  }

  /**
   Package round trip: whatever the optional header fields, the encoding of the DEFLATE
   stream and the archive around them, unpacking gives the last application binary and the
   last manifest, byte for byte, and fails with ENOENT exactly when one of them is missing.
   */
  lemma PackageRoundTrip(gz: seq<byte>, h: Gzip.Header, payload: seq<byte>, trailer: seq<byte>, st: Stream, a: Tar.Archive)
    requires Member(gz, h, payload, trailer, st) && IsTar(st.Expand([]), a)
    requires 1 <= |st.Expand([])| <= MAX_DATA
    ensures Unpackage(gz) ==
            if a.LastApp().Some? && a.LastManifest().Some?
            then Ok((a.LastApp().value, a.LastManifest().value)) else Err(ENOENT)
  {
    hide Unzip, Tar.Extract, IsTar, Stream.Written, Stream.WellFormed, Stream.Resolves, Stream.Expand;
    hide Gzip.Header.Bytes, Gzip.Header.WellFormed, Gzip.LittleEndian, Tar.Archive.LastApp, Tar.Archive.LastManifest;
    var tar := st.Expand([]);
    MemberFrame(gz, h, payload, trailer);
    UnzipInverts(gz, h, payload, trailer, st, |tar|);
    ExtractInverts(tar, a);
  }

  lemma MemberFrame(gz: seq<byte>, h: Gzip.Header, payload: seq<byte>, trailer: seq<byte>)
    requires h.WellFormed() && |trailer| == 8 && gz == h.Bytes() + payload + trailer
    ensures |gz| >= 18 && gz[0] == 0x1f && gz[1] == 0x8b
    ensures Gzip.LittleEndian(gz, |gz| - 4, 4) == Gzip.LittleEndian(trailer, 4, 4)
  {
    hide Gzip.LittleEndian;
    assert gz[..10] == h.Fixed();
    assert gz[0] == gz[..10][0] && gz[1] == gz[..10][1];
    Gzip.LittleEndianShift(gz, |gz| - 4, trailer, 4, 4);
  }
}
