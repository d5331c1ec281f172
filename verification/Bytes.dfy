/** Code buffers: bytes seen as little-endian 32-bit words. */
module Bytes {

  function ToLe(w: bv32): (b: seq<bv8>)
    ensures |b| == 4
  {
    [(w & 0xFF) as bv8, ((w >> 8) & 0xFF) as bv8, ((w >> 16) & 0xFF) as bv8, ((w >> 24) & 0xFF) as bv8]
  }

  function FromLe(b: seq<bv8>): bv32
    requires |b| == 4
  {
    (b[0] as bv32) | ((b[1] as bv32) << 8) | ((b[2] as bv32) << 16) | ((b[3] as bv32) << 24)
  }

  lemma LeRoundTrip(w: bv32)
    ensures FromLe(ToLe(w)) == w
  {}

  /** The whole words of a buffer. */
  function WordsOf(buf: seq<bv8>): (ws: seq<bv32>)
    ensures |ws| == |buf| / 4
  {
    seq(|buf| / 4, i requires 0 <= i < |buf| / 4 => FromLe(buf[4 * i..4 * i + 4]))
  }

  lemma WordAt(buf: seq<bv8>, at: nat)
    requires at % 4 == 0 && at / 4 < |buf| / 4
    ensures at + 4 <= |buf| && FromLe(buf[at..at + 4]) == WordsOf(buf)[at / 4]
  {
    hide FromLe;
    assert at == 4 * (at / 4);
  }

  lemma AppendWord(buf: seq<bv8>, w: bv32)
    requires |buf| % 4 == 0
    ensures WordsOf(buf + ToLe(w)) == WordsOf(buf) + [w]
  {
    var out := buf + ToLe(w);
    forall i | 0 <= i < |buf| / 4
      ensures WordsOf(out)[i] == WordsOf(buf)[i]
    {
      assert out[4 * i..4 * i + 4] == buf[4 * i..4 * i + 4];
    }
    assert out[|buf|..|buf| + 4] == ToLe(w);
    LeRoundTrip(w);
  }

  /** Overwriting four aligned bytes replaces one word. */
  lemma PatchWord(buf: seq<bv8>, at: nat, w: bv32)
    requires |buf| % 4 == 0 && at % 4 == 0 && at + 4 <= |buf|
    ensures WordsOf(buf[..at] + ToLe(w) + buf[at + 4..]) == WordsOf(buf)[at / 4 := w]
  {
    var out := buf[..at] + ToLe(w) + buf[at + 4..];
    forall i | 0 <= i < |buf| / 4
      ensures WordsOf(out)[i] == if i == at / 4 then w else WordsOf(buf)[i]
    {
      if i == at / 4 {
        assert out[4 * i..4 * i + 4] == ToLe(w);
        LeRoundTrip(w);
      } else if 4 * i + 4 <= at {
        assert out[4 * i..4 * i + 4] == buf[4 * i..4 * i + 4];
      } else {
        assert 4 * i >= at + 4;
        assert out[4 * i..4 * i + 4] == buf[4 * i..4 * i + 4];
      }
    }
  }

  lemma LowFirst(b: seq<bv8>)
    requires |b| == 4
    ensures var w := FromLe(b);
            && w & 0xFF == b[0] as bv32 && (w >> 8) & 0xFF == b[1] as bv32
            && (w >> 16) & 0xFF == b[2] as bv32 && w >> 24 == b[3] as bv32
  {}

  /** The lowest byte of a word comes first. */
  lemma ByteOrder(buf: seq<bv8>, i: nat)
    requires i < |buf| / 4
    ensures var w := WordsOf(buf)[i];
            && w & 0xFF == buf[4 * i] as bv32 && (w >> 8) & 0xFF == buf[4 * i + 1] as bv32
            && (w >> 16) & 0xFF == buf[4 * i + 2] as bv32 && w >> 24 == buf[4 * i + 3] as bv32
  {
    LowFirst(buf[4 * i..4 * i + 4]);
    hide FromLe;
  }
}
