/** How a file is cut into pieces. */
module Pieces {
  import opened Arithmetic

  /** Pieces of `pieceLength` bytes that cover `fileSize`; the source keeps the low 32 bits. */
  function PieceCount(fileSize: nat, pieceLength: nat): nat
    requires pieceLength > 0
  {
    (fileSize + pieceLength - 1) / pieceLength % 0x1_0000_0000
  }

  function PieceLen(fileSize: nat, pieceLength: nat, count: nat, piece: nat): nat
    requires pieceLength > 0
  {
    if piece + 1 == count then
      var remainder := fileSize % pieceLength;
      if remainder == 0 then pieceLength else remainder
    else pieceLength
  }

  lemma CeilDiv(fileSize: nat, pieceLength: nat)
    requires pieceLength > 0 && fileSize > 0
    ensures var count := (fileSize + pieceLength - 1) / pieceLength;
            && count > 0
            && (count - 1) * pieceLength + PieceLen(fileSize, pieceLength, count, count - 1) == fileSize
  {
    var q, r := fileSize / pieceLength, fileSize % pieceLength;
    assert fileSize == q * pieceLength + r;
    var count := (fileSize + pieceLength - 1) / pieceLength;
    if r == 0 {
      DivUnique(fileSize + pieceLength - 1, pieceLength, q, pieceLength - 1);
    } else {
      assert (q + 1) * pieceLength == q * pieceLength + pieceLength;
      DivUnique(fileSize + pieceLength - 1, pieceLength, q + 1, r - 1);
    }
    assert (count - 1) * pieceLength == count * pieceLength - pieceLength;
  }

  lemma TileStep(fileSize: nat, pieceLength: nat, count: nat, piece: nat)
    requires pieceLength > 0 && piece < count
    requires (count - 1) * pieceLength + PieceLen(fileSize, pieceLength, count, count - 1) == fileSize
    ensures var done := piece * pieceLength + PieceLen(fileSize, pieceLength, count, piece);
            && done <= fileSize
            && (piece + 1 < count ==> done == (piece + 1) * pieceLength)
            && (piece + 1 == count ==> done == fileSize)
  {
    if piece + 1 < count {
      assert (piece + 1) * pieceLength == piece * pieceLength + pieceLength;
      MulMono(piece + 1, count - 1, pieceLength);
    }
  }
}
