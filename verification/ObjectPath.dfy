/** The path of an object below `objects/`, told by decoding it. */
module ObjectPath {
  import opened Bytes
  import opened Dumpfile
  import opened DumpfileTheorem
  import F = ErofsFormat

  predicate LowerHex(s: bytes) {
    forall i :: 0 <= i < |s| ==> 48 <= s[i] <= 57 || 97 <= s[i] <= 102
  }

  /** `xx/yyyy…` in lower-case hexadecimal: the first byte of the id, a slash, the other bytes. */
  predicate NamesObject(path: bytes, id: bytes) {
    && id != [] && |path| == 2 * |id| + 1 && path[2] == 47
    && LowerHex(path[..2]) && FromHex(path[..2]) == Some(id[..1])
    && LowerHex(path[3..]) && FromHex(path[3..]) == Some(id[1..])
  }

  lemma {:induction false} HexIsLower(b: bytes)
    ensures LowerHex(F.Hex(b))
  {
    if b != [] {
      HexIsLower(b[1..]);
      assert F.Hex(b)[2..] == F.Hex(b[1..]);
      assert forall i :: 2 <= i < |F.Hex(b)| ==> F.Hex(b)[i] == F.Hex(b)[2..][i - 2];
    }
  }

  lemma PathnameNames(id: bytes)
    requires id != []
    ensures NamesObject(F.ObjectPathname(id), id)
  {
    hide F.Hex, FromHex;
    var path := F.ObjectPathname(id);
    HexInverts(id[..1]);
    HexInverts(id[1..]);
    HexIsLower(id[..1]);
    HexIsLower(id[1..]);
    assert path[..2] == F.Hex(id[..1]) && path[3..] == F.Hex(id[1..]);
  }
}
