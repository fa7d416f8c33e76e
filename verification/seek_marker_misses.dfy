/** Written seek markers that the search misses. */
module SeekMarkerMisses {
  import opened Bytes
  import opened Varuint
  import opened Framing
  import opened LogFormat
  import opened SeekMarker

  /** A marker of exactly 100 bytes is, whatever it says: its size is the signature's first byte. */
  lemma SizeHundredIsMissed(c: Crc, enc: Encoding, log: seq<Entry>, k: nat, ids: set<nat>, file: seq<byte>,
                            time: int, offsets: seq<(nat, nat)>, from: nat, end: int)
    requires WrittenAt(c, enc, log, k, ids, file, time, offsets) && MarkerSize(time, offsets) == 100
    ensures from < SignatureOf(enc, log, k) ==> !Finds(Sought(c, file, ids, from, end), Position(enc, log, k))
  {
    var start, q := Position(enc, log, k), SignatureOf(enc, log, k);
    MarkerLayout(c, enc, log, k, ids, file, time, offsets);
    if from < q {
      SizeByte(c, file, start, time, offsets, LogBytes(enc, log[k + 1..]));
      assert Progress(file, from, q - 1) == 0;
      SearchMisses(c, enc, log, k, ids, file, time, offsets, from, end);
    }
  }

  lemma SizeByte(c: Crc, file: seq<byte>, start: nat, time: int, offsets: seq<(nat, nat)>, later: seq<byte>)
    requires start <= |file| && file[start..] == BlockBytes(TYPE_SEEK_MARKER, MarkerBody(c, time, offsets)) + later
    requires MarkerSize(time, offsets) == 100
    ensures MarkerHeaderSize(time, offsets) == 2 && start + 1 < |file| && file[start + 1] == SIGNATURE[0]
  {
    assert Encode(100) == [0x64] && Encode(TYPE_SEEK_MARKER) == [5];
    assert file[start + 1] == file[start..][1];
  }

  /** The pairs of such a marker. */
  function ManyPairs(n: nat): seq<(nat, nat)> {
    if n == 0 then [(0, 128)] else [(0, 0)] + ManyPairs(n - 1)
  }

  lemma {:induction false} ManyPairsSize(n: nat)
    ensures |ManyPairs(n)| == n + 1 && |Offsets(ManyPairs(n))| == 2 * n + 3
    ensures forall i :: 0 <= i < |ManyPairs(n)| ==> ManyPairs(n)[i].0 == 0 && ManyPairs(n)[i].1 <= 128
  {
    if n == 0 {
      assert ManyPairs(0)[1..] == [];
      assert |Encode(128)| == 2;
    } else {
      ManyPairsSize(n - 1);
      assert ManyPairs(n)[1..] == ManyPairs(n - 1);
    }
  }

  /** One is missed in a file that holds nothing else. */
  lemma AMarkerIsMissed(c: Crc, enc: Encoding)
    requires Encodes(c, enc)
    ensures
      var log := [MarkerEntry(0, ManyPairs(37))];
      var file := FileBytes(enc, log);
      && WrittenAt(c, enc, log, 0, {0}, file, 0, ManyPairs(37)) && SignatureOf(enc, log, 0) == 11
      && !Finds(Sought(c, file, {0}, 9, |file|), 9)
  {
    var log, offsets := [MarkerEntry(0, ManyPairs(37))], ManyPairs(37);
    ManyPairsSize(37);
    HundredBytes(offsets);
    IsWritten(c, enc, log, offsets);
    SizeHundredIsMissed(c, enc, log, 0, {0}, FileBytes(enc, log), 0, offsets, 9, |FileBytes(enc, log)|);
  }

  lemma HundredBytes(offsets: seq<(nat, nat)>)
    requires |offsets| == 38 && |Offsets(offsets)| == 77
    ensures MarkerSize(0, offsets) == 100 && MarkerHeaderSize(0, offsets) == 2
  {
    assert |Encode(38)| == 1 && |Encode(0)| == 1 && |Encode(100)| == 1;
  }

  lemma IsWritten(c: Crc, enc: Encoding, log: seq<Entry>, offsets: seq<(nat, nat)>)
    requires Encodes(c, enc) && log == [MarkerEntry(0, offsets)] && |offsets| < TWO64 && MarkerSize(0, offsets) == 100
    requires forall i :: 0 <= i < |offsets| ==> offsets[i].0 == 0 && offsets[i].1 <= 128
    ensures Position(enc, log, 0) == 9 && WrittenAt(c, enc, log, 0, {0}, FileBytes(enc, log), 0, offsets)
  {
    Pow128Nine();
  }

  /** A payload that is recognised as a marker's signature, and then turns out to be none. */
  const DECOY: seq<byte> := [0x64, 0x75, 0x86, 0x97, 0xa8, 0xb9, 0xca, 0xfd, 0, 0, 0, 0, 255]

  function DecoyData(): Data {
    Data(1, None, None, false, false, DECOY)
  }

  /** The marker behind it is missed. */
  lemma ADecoyHides(c: Crc, enc: Encoding)
    requires Encodes(c, enc)
    ensures
      var log := [DataEntry(DecoyData()), MarkerEntry(0, [])];
      var file := FileBytes(enc, log);
      && WrittenAt(c, enc, log, 1, {}, file, 0, [])
      && Recognised(file, 9, 13) && Evaluate(BlocksIn(c, file, {}), file, 20, 21) == NoMarker
      && !Finds(Sought(c, file, {}, 9, |file|), Position(enc, log, 1))
  {
    var log := [DataEntry(DecoyData()), MarkerEntry(0, [])];
    var file := FileBytes(enc, log);
    DecoyAt(c, enc, log, file);
    DecoyIsSignature(file);
    Pow128Nine();
    assert |MarkerTail(0, [])| == 10;
    FalsePositiveHides(c, enc, log, 1, {}, file, 0, [], 9, |file|, 13);
  }

  lemma DecoyAt(c: Crc, enc: Encoding, log: seq<Entry>, file: seq<byte>)
    requires Encodes(c, enc) && |log| > 1 && log[0] == DataEntry(DecoyData()) && file == FileBytes(enc, log)
    ensures Position(enc, log, 1) == 26 && |file| >= 26
    ensures file[9..13] == [2, 15, 1, 0] && file[13..26] == DECOY
  {
    DecoyBytes(c, enc);
    FileFrom(enc, log, 0);
    PositionNext(enc, log, 0);
    SliceOfSuffix(file, 9, 0, 4);
    SliceOfSuffix(file, 9, 4, 17);
    var later := LogBytes(enc, log[1..]);
    assert file[9..] == [2, 15, 1, 0] + DECOY + later;
    assert ([2, 15, 1, 0] + DECOY + later)[4..17] == DECOY;
  }

  lemma DecoyIsSignature(file: seq<byte>)
    requires |file| >= 26 && file[9..13] == [2, 15, 1, 0] && file[13..26] == DECOY
    ensures Recognised(file, 9, 13) && file[25] == 255
  {
    assert file[9..13][0] == file[9] && file[9..13][1] == file[10] && file[9..13][2] == file[11]
        && file[9..13][3] == file[12];
    assert file[13..21] == file[13..26][..8] == SIGNATURE;
    assert file[25] == file[13..26][12];
  }

  lemma DecoyBytes(c: Crc, enc: Encoding)
    requires Encodes(c, enc)
    ensures enc(DataEntry(DecoyData())) == [2, 15, 1, 0] + DECOY
  {
    var d := DecoyData();
    assert EncodesEntry(c, enc, DataEntry(d));
    SmallVaruints();
    assert Fields(d) == [1, 0];
    Pieces(Fields(d), SumBytes(c, d), d.stored, [1, 0], DECOY);
    BlockOf(DataBody(c, d), [1, 0] + DECOY);
  }

  lemma SmallVaruints()
    ensures Encode(0) == [0] && Encode(1) == [1] && Encode(2) == [2] && Encode(15) == [15]
  {
  }

  lemma Pieces(fields: seq<byte>, sum: seq<byte>, stored: seq<byte>, a: seq<byte>, b: seq<byte>)
    requires fields == a && sum == [] && stored == b
    ensures fields + (sum + stored) == a + b
  {
  }

  lemma BlockOf(body: seq<byte>, same: seq<byte>)
    requires body == same && |same| == 15
    ensures BlockBytes(TYPE_DATA, body) == [2, 15] + same
  {
    SmallVaruints();
  }
}
