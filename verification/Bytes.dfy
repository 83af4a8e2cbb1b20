/** Octets, 16-bit words and the little-endian layout used on the wire. */
module Bytes {

  type byte = b: int | 0 <= b < 0x100
  type word = w: int | 0 <= w < 0x1_0000

  datatype Option<+T> = None | Some(value: T)

  function LittleEndian(w: word): (r: seq<byte>)
    ensures |r| == 2
  {
    [w % 0x100, w / 0x100]
  }

  function FromLittleEndian(lo: byte, hi: byte): word {
    lo + 0x100 * hi
  }

  /** An array of 16-bit words as it lies in little-endian memory. */
  function WordsToBytes(ws: seq<word>): (r: seq<byte>)
    ensures |r| == 2 * |ws|
  {
    seq(2 * |ws|, i requires 0 <= i < 2 * |ws| => if i % 2 == 0 then ws[i / 2] % 0x100 else ws[i / 2] / 0x100)
  }

  function BytesToWords(bs: seq<byte>): (r: seq<word>)
    requires |bs| % 2 == 0
    ensures |r| == |bs| / 2
  {
    seq(|bs| / 2, i requires 0 <= i < |bs| / 2 => FromLittleEndian(bs[2 * i], bs[2 * i + 1]))
  }

  lemma WordsRoundTrip(ws: seq<word>)
    ensures BytesToWords(WordsToBytes(ws)) == ws
  {
    forall i | 0 <= i < |ws|
      ensures BytesToWords(WordsToBytes(ws))[i] == ws[i]
    {
      assert (2 * i) / 2 == i && (2 * i + 1) / 2 == i;
    }
  }

  lemma WordsToBytesAppend(ws: seq<word>, w: word)
    ensures WordsToBytes(ws + [w]) == WordsToBytes(ws) + LittleEndian(w)
  {
  }

  /** Concatenation of a sequence of sequences, last piece outermost. */
  function Flatten<T>(pieces: seq<seq<T>>): seq<T> {
    if pieces == [] then [] else Flatten(pieces[..|pieces| - 1]) + pieces[|pieces| - 1]
  }

  lemma FlattenAppend<T>(pieces: seq<seq<T>>, last: seq<T>)
    ensures Flatten(pieces + [last]) == Flatten(pieces) + last
  {
    assert (pieces + [last])[..|pieces|] == pieces;
  }
}
