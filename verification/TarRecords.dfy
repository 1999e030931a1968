/** The records of an archive by their offsets: 512 bytes of header, the body, and which bodies
    become objects. */
module TarRecords {
  import opened Bytes
  import opened Splitstream
  import opened SplitstreamReader
  import opened SplitstreamBuilder
  import opened Tar

  predicate AllZero(b: bytes) {
    forall i :: 0 <= i < |b| ==> b[i] == 0
  }

  /** Up to a block of zeros or the end each record is a header and its body; the body of a regular
      file of more than 64 bytes is an object, any other is there as it is. */
  ghost predicate RecordsAre(tar: TarFormat, repo: Repo, input: bytes, rs: seq<Record>)
    decreases |input|
  {
    if input == [] then rs == []
    else
      && |input| >= 512
      && var header := input[..512];
      if AllZero(header) then rs == []
      else
        && tar.entrySize(header).Some?
        && var size := tar.entrySize(header).value;
        var end := 512 + (size + 511) / 512 * 512;
        && |input| >= end && rs != [] && rs[0].header == header
        && rs[0].body == (if tar.regular(header) && size > 64 then GotObject(repo.idOf(input[512..512 + size]))
                          else GotBytes(input[512..512 + size]))
        && RecordsAre(tar, repo, input[end..], rs[1..])
  }

  predicate Large(tar: TarFormat, header: bytes) {
    tar.regular(header) && tar.entrySize(header).Some? && tar.entrySize(header).value > 64
  }

  lemma ZerosAre(b: bytes)
    requires |b| == 512
    ensures AllZero(b) <==> b == Zeros(512)
  {
  }

  lemma {:induction false} DirectAre(tar: TarFormat, repo: Repo, input: bytes, rs: seq<Record>)
    ensures DirectRecords(tar, repo, input) == Some(rs) <==> RecordsAre(tar, repo, input, rs)
    decreases |input|
  {
    hide AllZero, Zeros;
    PieceFits(tar, input);
    var p := FirstPiece(tar, input);
    if |input| >= 512 {
      ZerosAre(input[..512]);
    }
    if p.Entry? {
      var rest := input[PieceSize(p)..];
      assert p.body[..p.size] == input[512..512 + p.size];
      if rs != [] {
        DirectAre(tar, repo, rest, rs[1..]);
        assert rs == [rs[0]] + rs[1..];
      }
      if DirectRecords(tar, repo, rest).Some? {
        DirectAre(tar, repo, rest, DirectRecords(tar, repo, rest).value);
      }
    }
  }

  /** Reading a split archive entry by entry gives its records, and exactly the bodies of regular
      files above 64 bytes come as objects. */
  lemma ArchiveRecords(tar: TarFormat, repo: Repo, input: bytes, contentType: nat, file: bytes)
    requires repo.Good() && SplitAtoms(tar, repo, input).Some? && KeepsBodies(tar, repo, input)
    requires FitsArchive(tar, repo, input, contentType)
    requires IsStreamOf(repo, file, SplitAtoms(tar, repo, input).value, contentType, |input|)
    ensures
      var r := Open(repo, file, Some(contentType));
      && r.Some?
      && var rs := RecordsRaw(tar, Raw(r.value.data, 0), r.value.objectRefs);
      && (rs.None? <==> EndsBare(tar, input))
      && (rs.Some? ==> RecordsAre(tar, repo, input, rs.value))
      && (rs.Some? ==> forall i :: 0 <= i < |rs.value| ==>
            (rs.value[i].body.GotObject? <==> Large(tar, rs.value[i].header)))
  {
    hide Open, RecordsRaw, SplitAtoms, KeepsBodies, IsStreamOf, FitsArchive, RecordsAre, DirectRecords, EndsBare;
    ArchiveRoundTrip(tar, repo, input, contentType, file);
    AcceptedDirect(tar, repo, input);
    var rs := DirectRecords(tar, repo, input).value;
    DirectAre(tar, repo, input, rs);
    ObjectsAre(tar, repo, input, rs);
  }

  /** An accepted archive has records. */
  lemma {:induction false} AcceptedDirect(tar: TarFormat, repo: Repo, input: bytes)
    requires SplitAtoms(tar, repo, input).Some?
    ensures DirectRecords(tar, repo, input).Some?
    decreases |input|
  {
    hide BytesOf, Up512;
    PieceFits(tar, input);
    var p := FirstPiece(tar, input);
    if p.Entry? {
      AcceptedDirect(tar, repo, input[PieceSize(p)..]);
    }
  }

  lemma {:induction false} ObjectsAre(tar: TarFormat, repo: Repo, input: bytes, rs: seq<Record>)
    requires RecordsAre(tar, repo, input, rs)
    ensures forall i :: 0 <= i < |rs| ==>
      (rs[i].body.GotObject? <==> Large(tar, rs[i].header))
    decreases |input|
  {
    hide AllZero;
    if rs != [] {
      var size := tar.entrySize(input[..512]).value;
      ObjectsAre(tar, repo, input[512 + (size + 511) / 512 * 512..], rs[1..]);
    }
  }
}
