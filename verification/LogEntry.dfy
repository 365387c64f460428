/** Log entries and how they lie in the words of the log's region: four header words, then the key
    bytes and the value bytes, eight to a word, the first in the low-order position. */
module LogEntry {
  import opened Arithmetic

  const HEADER_WORDS := 4
  const HEADER_BYTES := 32

  type Byte = b: nat | b < 256
  type Key = seq<Byte>

  datatype Entry = Entry(key: Key, val: seq<Byte>, expire: nat) {
    function Data(): (d: seq<Byte>)
      ensures |d| == |key| + |val|
    {
      key + val
    }

    /** initial_size: the header and the data, which take these words */
    function Size(): (n: nat)
      ensures (n + 7) / 8 == HEADER_WORDS + DataWords(|key| + |val|)
    {
      HEADER_BYTES + |key| + |val|
    }
  }

  // ---------- Bytes of a word ----------

  function ByteOf(w: int, j: nat): Byte
    decreases j
  {
    if j == 0 then w % 256 else ByteOf(w / 256, j - 1)
  }

  function WithByte(w: int, j: nat, b: Byte): int
    decreases j
  {
    if j == 0 then w - w % 256 + b else WithByte(w / 256, j - 1, b) * 256 + w % 256
  }

  /** Writing one byte of a word changes that byte and no other. */
  lemma {:induction false} WriteByte(w: int, j: nat, b: Byte, k: nat)
    ensures ByteOf(WithByte(w, j, b), k) == if k == j then b else ByteOf(w, k)
    decreases j
  {
    if j == 0 {
      LowByte(w / 256, b);
    } else {
      LowByte(WithByte(w / 256, j - 1, b), w % 256);
      if k > 0 {
        WriteByte(w / 256, j - 1, b, k - 1);
      }
    }
  }

  lemma LowByte(q: int, b: Byte)
    ensures (q * 256 + b) % 256 == b && (q * 256 + b) / 256 == q
  {}

  // ---------- An entry in memory ----------

  /** The words that the data of `n` bytes takes. */
  function DataWords(n: nat): nat {
    (n + 7) / 8
  }

  function DataByte(w: seq<int>, a: nat, i: nat): Byte
    requires a + HEADER_WORDS + i / 8 < |w|
  {
    ByteOf(w[a + HEADER_WORDS + i / 8], i % 8)
  }

  ghost predicate HoldsData(w: seq<int>, a: nat, d: seq<Byte>) {
    && a + HEADER_WORDS + DataWords(|d|) <= |w|
    && forall i {:trigger d[i]} | 0 <= i < |d| :: DataByte(w, a, i) == d[i]
  }

  /** Entry `e` with its key's hash lies at word `a`. */
  ghost predicate Holds(w: seq<int>, a: nat, e: Entry, keyhash: nat) {
    && HoldsData(w, a, e.Data())
    && w[a] == e.Size() && w[a + 1] == keyhash
    && w[a + 2] == |e.key| + MAX_UINT32 * |e.val| && |e.key| < MAX_UINT32
    && w[a + 3] == e.expire
  }

  /** The words of an entry determine it. */
  lemma HoldsUnique(w: seq<int>, a: nat, e: Entry, h: nat, f: Entry, g: nat)
    requires Holds(w, a, e, h) && Holds(w, a, f, g)
    ensures e == f && h == g
  {
    assert |e.key| == |f.key| && |e.val| == |f.val|;
    forall i | 0 <= i < |e.Data()| ensures e.Data()[i] == f.Data()[i] {}
    assert e.Data() == f.Data();
    assert e.key == e.Data()[..|e.key|] && e.val == e.Data()[|e.key|..];
    assert f.key == f.Data()[..|e.key|] && f.val == f.Data()[|e.key|..];
  }

  /** An entry stays where it is as long as its words do. */
  lemma HoldsKept(w: seq<int>, u: seq<int>, a: nat, k: nat, e: Entry, h: nat)
    requires Holds(w, a, e, h) && HEADER_WORDS + DataWords(|e.Data()|) <= k && a + k <= |w| == |u|
    requires forall i {:trigger u[i]} | a <= i < a + k :: u[i] == w[i]
    ensures Holds(u, a, e, h)
  {
    forall i {:trigger e.Data()[i]} | 0 <= i < |e.Data()| ensures DataByte(u, a, i) == e.Data()[i] {
      assert DataByte(w, a, i) == e.Data()[i];
    }
  }

  /** Writing data byte `i` leaves the other data bytes alone. */
  lemma WriteDataByte(w: seq<int>, a: nat, d: seq<Byte>, i: nat)
    requires i < |d| && a + HEADER_WORDS + DataWords(|d|) <= |w|
    requires forall j {:trigger d[j]} | 0 <= j < i :: DataByte(w, a, j) == d[j]
    ensures var u := w[a + HEADER_WORDS + i / 8 := WithByte(w[a + HEADER_WORDS + i / 8], i % 8, d[i])];
      forall j {:trigger d[j]} | 0 <= j <= i :: DataByte(u, a, j) == d[j]
  {
    var x := w[a + HEADER_WORDS + i / 8];
    var u := w[a + HEADER_WORDS + i / 8 := WithByte(x, i % 8, d[i])];
    forall j {:trigger d[j]} | 0 <= j <= i ensures DataByte(u, a, j) == d[j] {
      WriteByte(x, i % 8, d[i], j % 8);
      if j < i { assert DataByte(w, a, j) == d[j]; }
    }
  }
}
