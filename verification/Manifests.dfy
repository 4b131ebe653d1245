/**
 A manifest inside a binary: the section that holds the bytes of a printed document is parsed to
 what the document means.
 */
module Manifests {
  import opened Bits
  import opened Errnos
  import opened Slices
  import opened Wasm
  import Json
  import opened JsonDocs

  predicate OneByte(doc: string) { forall i :: 0 <= i < |doc| ==> doc[i] as int < 256 }

  /** The bytes of a text. */
  function Written(doc: string): (r: seq<byte>)
    requires OneByte(doc)
    ensures |r| == |doc| && forall i :: 0 <= i < |doc| ==> r[i] as int == doc[i] as int
  {
    seq(|doc|, (i: nat) requires i < |doc| => doc[i] as byte)
  }

  lemma TextOfWritten(doc: string)
    requires OneByte(doc)
    ensures Text(Written(doc)) == doc
  {
  }

  /** Main result: the first section named .akira.manifest with a printed document gives what the document means. */
  lemma BinaryReads(
      data: seq<byte>, before: seq<Section>, size: seq<byte>, nameSize: seq<byte>, name: seq<byte>, rest: seq<byte>,
      w: string, ms: seq<Member>, close: string, mask: string -> bv32)
    requires Spaces(w) && MembersOk(ms) && Closing(close) && OneByte(PrintDoc(w, ms, close))
    requires forall i :: 0 <= i < |before| ==> SectionOk(before[i])
    requires FirstManifest(before).None? && OneByte(".akira.manifest") && name == Written(".akira.manifest")
    requires var s := Custom(size, nameSize, name, Written(PrintDoc(w, ms, close)));
             && SectionOk(s) && Standing(data, 8, Cat(PrintSections(before + [s]), rest))
             && 8 + |PrintSections(before + [s])| + |rest| == |data|
    ensures Manifest(data, mask) == Meaning(Json.Manifest("", "", 0, 0), ms, mask)
  {
    hide Spaces, MembersOk, Closing, PrintDoc, SectionOk, Json.Parse, Wasm.Manifest, PrintSections, Meaning, Text, Standing, Cat;
    var doc := PrintDoc(w, ms, close);
    var s := Custom(size, nameSize, name, Written(doc));
    NameWritten(name);
    FirstIs(before, s);
    WalkFindsFirst(data, before + [s], rest, ENOENT, mask);
    TextOfWritten(doc);
    DocReads(w, ms, close, mask);
  }

  lemma NameWritten(name: seq<byte>)
    requires OneByte(".akira.manifest") && name == Written(".akira.manifest")
    ensures name == SECTION_NAME
  {
  }

  lemma {:induction false} FirstIs(before: seq<Section>, s: Section)
    requires FirstManifest(before).None? && s.Custom? && s.name == SECTION_NAME
    ensures FirstManifest(before + [s]) == Some(s.content)
  {
    if before != [] {
      assert (before + [s])[1..] == before[1..] + [s];
      FirstIs(before[1..], s);
    }
  }
}
