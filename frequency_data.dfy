/**
 * Packing of the analyser's byte magnitudes into the 4-component vectors
 * handed to the shader uniform `u_FrequencyData` (src/index.tsx).
 *
 * Bytes 4k .. 4k+3 of the buffer become vector k as (x, y, z, w). The loop
 * steps by 4 while the index is below the buffer length, so a buffer whose
 * length is not a multiple of 4 still yields a final vector; its trailing
 * components are reads past the end of the `Uint8Array`, which JavaScript
 * answers with `undefined`. Here such a read is an absent component.
 */
module FrequencyData {
  import opened Wrappers

  /** An element of a `Uint8Array`. */
  type Byte = b: int | 0 <= b < 256

  /** A `Vector4` whose components are each a byte read or an out-of-range read. */
  datatype Vec4 = Vec4(x: Option<Byte>, y: Option<Byte>, z: Option<Byte>, w: Option<Byte>)

  /** Component j of v, in the order x, y, z, w. */
  function Component(v: Vec4, j: nat): Option<Byte>
    requires j < 4
  {
    if j == 0 then v.x else if j == 1 then v.y else if j == 2 then v.z else v.w
  }

  /** The value of `data[j]` in JavaScript: the element, or absent past the end. */
  function At(s: seq<Byte>, j: nat): Option<Byte>
  {
    if j < |s| then Some(s[j]) else None
  }

  /** The vector the loop builds for the group that starts at byte 4k. */
  function Group(s: seq<Byte>, k: nat): Vec4
  {
    Vec4(At(s, 4 * k), At(s, 4 * k + 1), At(s, 4 * k + 2), At(s, 4 * k + 3))
  }

  /**
   * Reference definition of the packing, by chunks: the first vector is
   * taken from the first (up to) four bytes, the rest from what follows.
   * The result has ceil(n/4) vectors, and none for the empty buffer.
   */
  function Pack(s: seq<Byte>): (r: seq<Vec4>)
    ensures |r| == (|s| + 3) / 4
    ensures s == [] <==> r == []
    decreases |s|
  {
    if |s| == 0 then []
    else if |s| <= 4 then [Group(s, 0)]
    else [Group(s, 0)] + Pack(s[4..])
  }

  /** The groups after the first four bytes are the groups of the remaining bytes. */
  lemma {:induction false} GroupShift(s: seq<Byte>, k: nat)
    requires |s| > 4
    ensures Group(s[4..], k) == Group(s, k + 1)
  {
  }

  /** Vector k of the packing is built from bytes 4k .. 4k+3, in ascending k. */
  lemma {:induction false} PackAt(s: seq<Byte>, k: nat)
    requires k < |Pack(s)|
    ensures Pack(s)[k] == Group(s, k)
    decreases |s|
  {
    if k > 0 {
      assert |s| > 4;
      PackAt(s[4..], k - 1);
      GroupShift(s, k - 1);
    }
  }

  /**
   * getFrequencyData (src/index.tsx:158-164): the loop pushes one vector per
   * index i = 0, 4, 8, ... below the buffer length and does not write the
   * buffer (there is no modifies clause).
   */
  method GetFrequencyData(data: array<Byte>) returns (arr: seq<Vec4>)
    ensures arr == Pack(data[..])
  {
    arr := [];
    var i := 0;
    while i < data.Length
      invariant i % 4 == 0 && i <= data.Length + 3
      invariant |arr| == i / 4
      invariant forall k :: 0 <= k < |arr| ==> arr[k] == Group(data[..], k)
    {
      arr := arr + [Vec4(Read(data, i), Read(data, i + 1), Read(data, i + 2), Read(data, i + 3))];
      i := i + 4;
    }
    forall k | 0 <= k < |arr|
      ensures arr[k] == Pack(data[..])[k]
    {
      PackAt(data[..], k);
    }
  }

  /** `data[j]` on the array itself, absent at or past the end. */
  function Read(data: array<Byte>, j: nat): Option<Byte>
    reads data
  {
    if j < data.Length then Some(data[j]) else None
  }

  // ---------------------------------------------------------------------------
  // Properties of the packing
  // ---------------------------------------------------------------------------

  /** A component of vector k is present exactly when its byte 4k+j is inside the buffer, and then it is that byte. */
  lemma {:induction false} ComponentPresence(s: seq<Byte>, k: nat, j: nat)
    requires k < |Pack(s)| && j < 4
    ensures Component(Pack(s)[k], j).Some? <==> 4 * k + j < |s|
    ensures 4 * k + j < |s| ==> Component(Pack(s)[k], j) == Some(s[4 * k + j])
  {
    PackAt(s, k);
  }

  /** Every group that lies wholly inside the buffer is copied exactly. */
  lemma {:induction false} FullGroup(s: seq<Byte>, k: nat)
    requires 4 * k + 3 < |s|
    ensures k < |Pack(s)|
    ensures Pack(s)[k] == Vec4(Some(s[4 * k]), Some(s[4 * k + 1]), Some(s[4 * k + 2]), Some(s[4 * k + 3]))
  {
    PackAt(s, k);
  }

  /**
   * A trailing partial group is not dropped: it becomes one last vector whose
   * components past the end are absent.
   */
  lemma {:induction false} PartialGroupKept(s: seq<Byte>)
    requires |s| % 4 != 0
    ensures |Pack(s)| == |s| / 4 + 1
    ensures var q := |s| / 4; var last := Pack(s)[q];
      forall j :: 0 <= j < 4 ==>
        Component(last, j) == (if 4 * q + j < |s| then Some(s[4 * q + j]) else None)
    ensures Pack(s)[|s| / 4].x.Some? && Pack(s)[|s| / 4].w.None?
  {
    PackAt(s, |s| / 4);
  }

  // ---------------------------------------------------------------------------
  // Flattening back to bytes
  // ---------------------------------------------------------------------------

  /** The components of the vectors, in order: x, y, z, w of vector 0, then vector 1, ... */
  function Flatten(vs: seq<Vec4>): (r: seq<Option<Byte>>)
    ensures |r| == 4 * |vs|
  {
    if vs == [] then [] else [vs[0].x, vs[0].y, vs[0].z, vs[0].w] + Flatten(vs[1..])
  }

  /** Position i of the flattening is component i % 4 of vector i / 4. */
  lemma {:induction false} FlattenAt(vs: seq<Vec4>, i: nat)
    requires i < 4 * |vs|
    ensures Flatten(vs)[i] == Component(vs[i / 4], i % 4)
  {
    if i >= 4 {
      FlattenAt(vs[1..], i - 4);
      assert (i - 4) / 4 == i / 4 - 1 && (i - 4) % 4 == i % 4;
    }
  }

  /** Every byte, present. */
  function Lift(s: seq<Byte>): (r: seq<Option<Byte>>)
    ensures |r| == |s|
    ensures forall i :: 0 <= i < |s| ==> r[i] == Some(s[i])
  {
    seq(|s|, i requires 0 <= i < |s| => Some(s[i]))
  }

  /** m absent components. */
  function Absent(m: nat): (r: seq<Option<Byte>>)
    ensures |r| == m
    ensures forall i :: 0 <= i < m ==> r[i] == None
  {
    seq(m, i => None)
  }

  /**
   * Flattening the packed vectors gives back every byte once, in order,
   * followed by as many absent components as the last group is short of four.
   */
  lemma {:induction false} FlattenPack(s: seq<Byte>)
    ensures Flatten(Pack(s)) == Lift(s) + Absent((4 - |s| % 4) % 4)
  {
    var f := Flatten(Pack(s));
    var g := Lift(s) + Absent((4 - |s| % 4) % 4);
    assert |f| == |g|;
    forall i | 0 <= i < |f|
      ensures f[i] == g[i]
    {
      FlattenAt(Pack(s), i);
      PackAt(s, i / 4);
      assert 4 * (i / 4) + i % 4 == i;
    }
  }

  /** When the length is a multiple of four, packing loses and invents nothing. */
  lemma {:induction false} RoundTrip(s: seq<Byte>)
    requires |s| % 4 == 0
    ensures Flatten(Pack(s)) == Lift(s)
  {
    FlattenPack(s);
    assert Absent(0) == [];
  }

  // ---------------------------------------------------------------------------
  // The fixed configuration
  // ---------------------------------------------------------------------------

  /** The analyser's FFT size (src/index.tsx:67). */
  const FftSize: nat := 256

  /**
   * `frequencyBinCount` of an AnalyserNode: half its FFT size, as the Web
   * Audio API (section 1.8, the AnalyserNode interface) defines it. The
   * buffer allocated at src/index.tsx:88 has this many bytes.
   */
  function FrequencyBinCount(fftSize: nat): nat
  {
    fftSize / 2
  }

  /** Length of the pre-sized uniform array `new Array(fftSize / 2 / 4)` (src/index.tsx:121). */
  function UniformLength(fftSize: nat): nat
  {
    fftSize / 2 / 4
  }

  /**
   * Each frame's packing of the analyser buffer has exactly the length of
   * the pre-sized uniform array it replaces: 32 vectors for 128 bytes, all
   * of them full groups.
   */
  lemma {:induction false} ConfiguredLength(data: seq<Byte>)
    requires |data| == FrequencyBinCount(FftSize)
    ensures |Pack(data)| == UniformLength(FftSize) == 32
    ensures forall k, j :: 0 <= k < |Pack(data)| && 0 <= j < 4 ==>
      Component(Pack(data)[k], j) == Some(data[4 * k + j])
  {
    forall k, j | 0 <= k < |Pack(data)| && 0 <= j < 4
      ensures Component(Pack(data)[k], j) == Some(data[4 * k + j])
    {
      ComponentPresence(data, k, j);
    }
  }

  /** A buffer of one repeated byte packs into vectors of that byte; all zeros give 32 zero vectors. */
  lemma {:induction false} ConstantBuffer(data: seq<Byte>, b: Byte)
    requires |data| == FrequencyBinCount(FftSize)
    requires forall i :: 0 <= i < |data| ==> data[i] == b
    ensures Pack(data) == seq(UniformLength(FftSize), k => Vec4(Some(b), Some(b), Some(b), Some(b)))
  {
    var expected := seq(UniformLength(FftSize), k => Vec4(Some(b), Some(b), Some(b), Some(b)));
    ConfiguredLength(data);
    forall k | 0 <= k < |Pack(data)|
      ensures Pack(data)[k] == expected[k]
    {
      FullGroup(data, k);
    }
  }
}
