/**
 Writing a package: stored DEFLATE blocks in a gzip member around a tar archive of two files.
 Every application and manifest up to the size limit has a package, and it is unpacked to them.
 */
module Packer {
  import opened Bits
  import opened Errnos
  import opened Deflate
  import opened DeflateFormat
  import opened DeflateEncoder
  import opened Slices
  import opened Package
  import Gzip
  import Tar

  const STORED_MAX: nat := 0xFFFF

  function Zeros(n: nat): (r: seq<byte>)
    ensures |r| == n && forall i :: 0 <= i < n ==> r[i] == 0
  {
    seq(n, i => 0)
  }

  // ----- gzip -----

  /** The data in stored blocks of at most 65535 bytes. */
  function StoredStream(data: seq<byte>): (r: Stream)
    decreases |data|
  {
    if |data| <= STORED_MAX then Last(Stored(data))
    else Then(Stored(data[..STORED_MAX]), StoredStream(data[STORED_MAX..]))
  }

  lemma {:induction false} StoredStreamHolds(data: seq<byte>, out: seq<byte>)
    ensures Encodable(StoredStream(data))
    ensures StoredStream(data).Resolves(out) && StoredStream(data).Expand(out) == out + data
    decreases |data|
  {
    if |data| > STORED_MAX {
      var first := data[..STORED_MAX];
      StoredStreamHolds(data[STORED_MAX..], out + first);
      assert out + first + data[STORED_MAX..] == out + data;
    }
  }

  /** `v` in `n` little-endian bytes. */
  function LittleBytes(v: nat, n: nat): (r: seq<byte>)
    ensures |r| == n
  {
    if n == 0 then [] else [(v % 256) as byte] + LittleBytes(v / 256, n - 1)
  }

  function Pow256(n: nat): (r: nat) { if n == 0 then 1 else 256 * Pow256(n - 1) }

  lemma {:induction false} LittleRoundTrip(v: nat, n: nat)
    requires v < Pow256(n)
    ensures Gzip.LittleEndian(LittleBytes(v, n), 0, n) == v
  {
    if n > 0 {
      var data := LittleBytes(v, n);
      LittleRoundTrip(v / 256, n - 1);
      Gzip.LittleEndianShift(data, 1, LittleBytes(v / 256, n - 1), 0, n - 1);
    }
  }

  ghost function Payload(st: Stream): (r: seq<byte>)
    requires Encodable(st)
  {
    Pack(Encode(st, 0))
  }

  /** Any header around any encodable stream; the checksum is not looked at. */
  ghost function Zipped(h: Gzip.Header, st: Stream, crc: seq<byte>): (r: seq<byte>)
    requires h.WellFormed() && Encodable(st) && st.Resolves([])
  {
    h.Bytes() + Payload(st) + (crc + LittleBytes(|st.Expand([])|, 4))
  }

  lemma ZippedIsMember(h: Gzip.Header, st: Stream, crc: seq<byte>)
    requires h.WellFormed() && Encodable(st) && st.Resolves([]) && |crc| == 4 && |st.Expand([])| < Tar.SIZE_MOD
    ensures Member(Zipped(h, st, crc), h, Payload(st), crc + LittleBytes(|st.Expand([])|, 4), st)
  {
    hide Gzip.Header.Bytes, Gzip.Header.WellFormed, Stream.Written, Stream.Resolves, Stream.Expand, Pack, Unpack, Encode;
    hide Gzip.LittleEndian, LittleBytes, BlockEncodable;
    EncodedIsWritten(st, []);
    assert Payload(st) + [] == Payload(st);
    var size := |st.Expand([])|;
    assert Pow256(4) == Tar.SIZE_MOD;
    LittleRoundTrip(size, 4);
    var trailer := crc + LittleBytes(size, 4);
    assert trailer[4..4 + 4] == LittleBytes(size, 4)[0..0 + 4];
    Gzip.LittleEndianShift(trailer, 4, LittleBytes(size, 4), 0, 4);
  }

  // ----- tar -----

  /** A file's name in an archive, with or without directories before it, and its type byte. */
  datatype Name = Name(dir: seq<byte>, base: string, ttype: byte) {
    predicate WellFormed() {
      && (dir == [] || dir[|dir| - 1] == 47) && 0 !in dir
      && (forall i :: 0 <= i < |base| ==> 0 < base[i] as int < 128 && base[i] != '/')
      && |dir| + |base| < 100 && (ttype == 48 || ttype == 0)
    }

    function Bytes(): (r: seq<byte>)
      requires WellFormed()
    {
      dir + Ascii(base)
    }
  }

  function Ascii(t: string): (r: seq<byte>)
    requires forall i :: 0 <= i < |t| ==> t[i] as int < 128
    ensures |r| == |t| && forall i :: 0 <= i < |t| ==> r[i] as int == t[i] as int
  {
    seq(|t|, (i: nat) requires i < |t| => t[i] as byte)
  }

  /** The size at 124 in octal, the type at 156; everything else the walk does not look at. */
  function Head(name: seq<byte>, size: nat, ttype: byte): (r: seq<byte>)
    requires |name| < 100
    ensures |r| == 512
  {
    name + Zeros(124 - |name|) + (Tar.OctalDigits(size, 11) + (Zeros(21) + ([ttype] + Zeros(355))))
  }

  function FileEntry(name: Name, data: seq<byte>): (r: Tar.Entry)
    requires name.WellFormed()
  {
    Tar.Entry(Head(name.Bytes(), |data|, name.ttype), name.Bytes(), 11, data, Zeros(Tar.RoundUp(|data|) - |data|))
  }

  lemma NameHasNoZero(name: Name)
    requires name.WellFormed()
    ensures 0 !in name.Bytes() && |name.Bytes()| < 100
  {
  }

  lemma HeadFields(name: seq<byte>, size: nat, ttype: byte)
    requires |name| < 100
    ensures var head := Head(name, size, ttype);
            && head[..|name|] == name && head[|name|] == 0
            && head[124..135] == Tar.OctalDigits(size, 11) && head[135] == 0 && head[156] == ttype
  {
    hide Tar.OctalDigits;
    var front, digits := name + Zeros(124 - |name|), Tar.OctalDigits(size, 11);
    var back := Zeros(21) + ([ttype] + Zeros(355));
    var head := Head(name, size, ttype);
    assert head == front + (digits + back);
    assert head[..|name|] == front[..|name|] == name;
    assert head[|name|] == front[|name|] == 0;
    assert head[124..135] == digits;
    assert head[135] == back[0] == 0;
    assert head[156] == back[21] == ttype;
  }

  lemma FileEntryOk(name: Name, data: seq<byte>)
    requires name.WellFormed() && |data| < Tar.SIZE_MOD
    ensures FileEntry(name, data).WellFormed()
    ensures |FileEntry(name, data).Bytes()| == 512 + Tar.RoundUp(|data|)
  {
    hide Tar.OctalDigits, Tar.RoundUp, Head, Name.Bytes;
    NameHasNoZero(name);
    HeadFields(name.Bytes(), |data|, name.ttype);
    assert Tar.Pow8(11) == 0x2_0000_0000;
  }

  lemma {:induction false} BaseOfPlain(dir: seq<byte>, base: seq<byte>)
    requires (dir == [] || dir[|dir| - 1] == 47) && 47 !in base
    ensures Tar.Base(dir + base) == base
    decreases |base|
  {
    if base == [] {
      assert dir + base == dir;
    } else {
      var n := |base| - 1;
      assert (dir + base)[..|dir + base| - 1] == dir + base[..n] && base == base[..n] + [base[n]];
      BaseOfPlain(dir, base[..n]);
    }
  }

  /** The names the walk looks for, in letters. */
  lemma NamesAre()
    ensures Tar.APP_WASM == Ascii("app.wasm") && Tar.APP_AOT == Ascii("app.aot") && Tar.MANIFEST == Ascii("manifest.json")
  {
  }

  lemma {:induction false} AsciiInjective(a: string, b: string)
    requires forall i :: 0 <= i < |a| ==> a[i] as int < 128
    requires forall i :: 0 <= i < |b| ==> b[i] as int < 128
    ensures Ascii(a) == Ascii(b) ==> a == b
  {
    if Ascii(a) == Ascii(b) {
      assert |a| == |b|;
      forall i | 0 <= i < |a|
        ensures a[i] == b[i]
      {
        assert Ascii(a)[i] as int == Ascii(b)[i] as int;
      }
    }
  }

  /** Which files the walk takes for the application and for the manifest: by the last part of the name alone. */
  lemma KindOf(name: Name, data: seq<byte>)
    requires name.WellFormed() && |data| < Tar.SIZE_MOD
    ensures var e := FileEntry(name, data);
            && e.WellFormed() && e.data == data
            && (e.IsAppFile() <==> name.base == "app.wasm" || name.base == "app.aot")
            && (e.IsManifestFile() <==> name.base == "manifest.json")
  {
    hide Tar.Base, Tar.RoundUp, Tar.Entry.WellFormed, Head, Tar.OctalDigits;
    FileEntryOk(name, data);
    HeadFields(name.Bytes(), |data|, name.ttype);
    BaseOfPlain(name.dir, Ascii(name.base));
    NamesAre();
    AsciiInjective(name.base, "app.wasm");
    AsciiInjective(name.base, "app.aot");
    AsciiInjective(name.base, "manifest.json");
    NameHasNoZero(name);
  }

  /** A file of any other type is neither. */
  lemma OtherTypes(e: Tar.Entry)
    requires e.WellFormed() && e.head[156] != 48 && e.head[156] != 0
    ensures !e.IsAppFile() && !e.IsManifestFile()
  {
  }

  predicate AppName(name: Name) { name.WellFormed() && (name.base == "app.wasm" || name.base == "app.aot") }

  predicate ManifestName(name: Name) { name.WellFormed() && name.base == "manifest.json" }

  /** An application and a manifest, each under any name it may have. */
  function TwoFiles(a: Name, app: seq<byte>, m: Name, manifest: seq<byte>): (r: Tar.Archive)
    requires AppName(a) && ManifestName(m)
  {
    Tar.Archive.Member(FileEntry(a, app), Tar.Archive.Member(FileEntry(m, manifest), Tar.Archive.End))
  }

  /** The archive and its two closing blocks of zeros. */
  function TarFile(a: Name, app: seq<byte>, m: Name, manifest: seq<byte>): (r: seq<byte>)
    requires AppName(a) && ManifestName(m)
  {
    TwoFiles(a, app, m, manifest).Bytes() + Zeros(1024)
  }

  function TarSize(app: seq<byte>, manifest: seq<byte>): (r: nat) {
    2048 + Tar.RoundUp(|app|) + Tar.RoundUp(|manifest|)
  }

  lemma TwoFilesHold(a: Name, app: seq<byte>, m: Name, manifest: seq<byte>)
    requires AppName(a) && ManifestName(m) && TarSize(app, manifest) < Tar.SIZE_MOD
    ensures var t := TwoFiles(a, app, m, manifest);
            && t.WellFormed() && t.LastApp() == Some(app) && t.LastManifest() == Some(manifest)
            && |TarFile(a, app, m, manifest)| == TarSize(app, manifest) == |t.Bytes()| + 1024
  {
    hide Tar.Entry.WellFormed, Tar.Entry.Bytes, FileEntry, Tar.Entry.IsAppFile, Tar.Entry.IsManifestFile;
    KindOf(a, app);
    KindOf(m, manifest);
    FileEntryOk(a, app);
    FileEntryOk(m, manifest);
    hide AppName, ManifestName;
    TwoEntries(FileEntry(a, app), FileEntry(m, manifest));
  }

  lemma TwoEntries(e: Tar.Entry, f: Tar.Entry)
    requires e.WellFormed() && f.WellFormed()
    requires e.IsAppFile() && !e.IsManifestFile() && f.IsManifestFile() && !f.IsAppFile()
    ensures var t := Tar.Archive.Member(e, Tar.Archive.Member(f, Tar.Archive.End));
            && t.WellFormed() && t.LastApp() == Some(e.data) && t.LastManifest() == Some(f.data)
            && |t.Bytes()| == |e.Bytes()| + |f.Bytes()|
  {
    hide Tar.Entry.WellFormed, Tar.Entry.Bytes, Tar.Entry.IsAppFile, Tar.Entry.IsManifestFile;
    var last := Tar.Archive.Member(f, Tar.Archive.End);
    assert last.LastManifest() == Some(f.data) && last.LastApp() == None;
    assert last.Bytes() == f.Bytes() + [];
  }

  lemma TarFileIsTar(a: Name, app: seq<byte>, m: Name, manifest: seq<byte>)
    requires AppName(a) && ManifestName(m) && TarSize(app, manifest) < Tar.SIZE_MOD
    ensures IsTar(TarFile(a, app, m, manifest), TwoFiles(a, app, m, manifest))
  {
    hide Tar.Archive.Bytes, Tar.Archive.WellFormed, AppName, ManifestName;
    TwoFilesHold(a, app, m, manifest);
    var t := TwoFiles(a, app, m, manifest).Bytes();
    var tar := TarFile(a, app, m, manifest);
    assert tar[0..0 + |t|] == t;
    assert Tar.ZeroBlock(tar, |t|);
  }

  // ----- packages -----

  const PLAIN := Gzip.Header(0, [0, 0, 0, 0, 0, 0], None, None, None, None)

  ghost function Packed(a: Name, app: seq<byte>, m: Name, manifest: seq<byte>): (r: seq<byte>)
    requires AppName(a) && ManifestName(m)
  {
    var tar := TarFile(a, app, m, manifest);
    StoredStreamHolds(tar, []);
    Zipped(PLAIN, StoredStream(tar), Zeros(4))
  }

  /**
   Main result: every application, built either way, and every manifest, under any directories, come
   back from their package, if the archive is no larger than 4 MiB; a larger one is refused.
   */
  lemma PackUnpackage(a: Name, app: seq<byte>, m: Name, manifest: seq<byte>)
    requires AppName(a) && ManifestName(m) && TarSize(app, manifest) < Tar.SIZE_MOD
    ensures Unpackage(Packed(a, app, m, manifest)) ==
            if TarSize(app, manifest) <= 4194304 then Ok((app, manifest)) else Err(EINVAL)
  {
    hide Encodable, Stream.Resolves, Stream.Expand, IsTar, Gzip.Header.Bytes, LittleBytes, Payload, AppName, ManifestName;
    hide TarFile, TwoFiles, StoredStream, TarSize, Tar.Archive.WellFormed, Tar.Archive.LastApp, Tar.Archive.LastManifest;
    hide Unzip, Gzip.LittleEndian, Stream.WellFormed, Stream.Written, Unpack;
    var tar := TarFile(a, app, m, manifest);
    var st := StoredStream(tar);
    StoredStreamHolds(tar, []);
    TwoFilesHold(a, app, m, manifest);
    TarFileIsTar(a, app, m, manifest);
    assert [] + tar == tar;
    ZippedIsMember(PLAIN, st, Zeros(4));
    var gz, trailer := Packed(a, app, m, manifest), Zeros(4) + LittleBytes(|tar|, 4);
    if |tar| <= 4194304 {
      TarSizePositive(app, manifest);
      PackageRoundTrip(gz, PLAIN, Payload(st), trailer, st, TwoFiles(a, app, m, manifest));
    } else {
      MemberFrame(gz, PLAIN, Payload(st), trailer);
    }
  }

  lemma TarSizePositive(app: seq<byte>, manifest: seq<byte>)
    ensures TarSize(app, manifest) >= 1
  {
  }
}
