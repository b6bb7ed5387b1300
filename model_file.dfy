/**
 * The binary model file written by `save_model` and read by `load_model`
 * (main.c:41-74), as a pure byte-level format.
 *
 * Layout: the magic "NNMD", the int32 dimension triple (8, 16, 2), then the
 * parameter floats `weights_ih` (8x16, row-major by input index), `weights_ho`
 * (16x2), `bias_h` (16), `bias_o` (2), and finally the 8 input and 2 output
 * `Stats`, each a (mean, std) pair of floats with no padding.
 */
module ModelFile {
  import opened Words
  import opened Topology

  /** 'N', 'N', 'M', 'D' */
  const MAGIC: seq<byte> := [0x4E, 0x4E, 0x4D, 0x44]

  const IH_WORDS: nat := 128
  const HO_WORDS: nat := 32
  const IN_STATS: nat := 8
  const OUT_STATS: nat := 2

  /** Byte offsets of the fields, each field following the previous one. */
  const DIMS_AT: nat := 4
  const IH_AT: nat := 16
  const HO_AT: nat := 528
  const BIAS_H_AT: nat := 656
  const BIAS_O_AT: nat := 720
  const IN_STATS_AT: nat := 728
  const OUT_STATS_AT: nat := 792
  /** 16 header bytes and 198 parameter words. */
  const FILE_BYTES: nat := 808

  /** One `Stats` record: the mean and standard deviation, as raw float bits. */
  datatype Stats = Stats(mean: Bits32, std: Bits32)

  /** Everything the file stores besides its header. */
  datatype Model = Model(
    weightsIH: seq<Bits32>,
    weightsHO: seq<Bits32>,
    biasH: seq<Bits32>,
    biasO: seq<Bits32>,
    inStats: seq<Stats>,
    outStats: seq<Stats>)
  {
    /** The C arrays have these sizes; a model of any other shape does not exist. */
    predicate WellShaped() {
      && |weightsIH| == IH_WORDS
      && |weightsHO| == HO_WORDS
      && |biasH| == HIDDEN_NODES
      && |biasO| == OUTPUT_NODES
      && |inStats| == IN_STATS
      && |outStats| == OUT_STATS
    }
  }

  datatype LoadResult = Rejected | Loaded(model: Model)

  /** An array of `Stats` in memory: mean, std, mean, std, ... */
  function StatsWords(ss: seq<Stats>): (ws: seq<Bits32>)
    ensures |ws| == 2 * |ss|
    ensures forall k :: 0 <= k < |ss| ==> ws[2 * k] == ss[k].mean && ws[2 * k + 1] == ss[k].std
  {
    if ss == [] then [] else [ss[0].mean, ss[0].std] + StatsWords(ss[1..])
  }

  function WordsStats(ws: seq<Bits32>): (ss: seq<Stats>)
    requires |ws| % 2 == 0
    ensures 2 * |ss| == |ws|
  {
    if ws == [] then [] else [Stats(ws[0], ws[1])] + WordsStats(ws[2..])
  }

  lemma {:induction false} WordsStatsRoundTrip(ss: seq<Stats>)
    ensures WordsStats(StatsWords(ss)) == ss
  {
    if ss != [] {
      var ws := StatsWords(ss);
      assert ws[2..] == StatsWords(ss[1..]);
      WordsStatsRoundTrip(ss[1..]);
    }
  }

  /** The dimension triple as `save_model` writes it. */
  function DimsBytes(): (bs: seq<byte>)
    ensures |bs| == 12
  {
    EncodeWords([Int32ToBits(INPUT_NODES as int32), Int32ToBits(HIDDEN_NODES as int32), Int32ToBits(OUTPUT_NODES as int32)])
  }

  function SaveModel(m: Model): (file: seq<byte>)
    requires m.WellShaped()
    ensures |file| == FILE_BYTES
    ensures file[..4] == MAGIC
  {
    MAGIC + DimsBytes()
    + EncodeWords(m.weightsIH) + EncodeWords(m.weightsHO)
    + EncodeWords(m.biasH) + EncodeWords(m.biasO)
    + EncodeWords(StatsWords(m.inStats)) + EncodeWords(StatsWords(m.outStats))
  }

  /**
   * `fread(buf, ...)` at file offset `pos`: the bytes the file still has
   * overwrite the front of the buffer, the rest of the buffer keeps what it
   * held. A read at or past the end leaves the buffer as it was.
   */
  function Fread(buf: seq<byte>, file: seq<byte>, pos: nat): (r: seq<byte>)
    ensures |r| == |buf|
    ensures forall k :: 0 <= k < |buf| ==> r[k] == if pos + k < |file| then file[pos + k] else buf[k]
  {
    if pos >= |file| then buf
    else
      var n := if |file| - pos < |buf| then |file| - pos else |buf|;
      file[pos .. pos + n] + buf[n..]
  }

  /** C's `strncmp` on unsigned bytes: compares at most `n` bytes and stops at a NUL. */
  function Strncmp(a: seq<byte>, b: seq<byte>, n: nat): (r: int)
    requires n <= |a| && n <= |b|
    ensures (forall k :: 0 <= k < n ==> a[k] == b[k]) ==> r == 0
    ensures r > 0 ==> exists k :: 0 <= k < n && a[k] > b[k]
    ensures r < 0 ==> exists k :: 0 <= k < n && a[k] < b[k]
  {
    if n == 0 then 0
    else if a[0] != b[0] then a[0] as int - b[0] as int
    else if a[0] == 0 then 0
    else Strncmp(a[1..], b[1..], n - 1)
  }

  /** `char magic[5] = {0}; fread(magic, 1, 4, f);` */
  function MagicBuffer(file: seq<byte>): (magic: seq<byte>)
    ensures |magic| == 5 && magic[4] == 0
    ensures forall k :: 0 <= k < 4 ==> magic[k] == if k < |file| then file[k] else 0
  {
    Fread([0, 0, 0, 0], file, 0) + [0]
  }

  /** `strncmp(magic, "NNMD", 4) == 0` */
  predicate MagicAccepted(file: seq<byte>) {
    Strncmp(MagicBuffer(file), MAGIC + [0], 4) == 0
  }

  /** `fread(dims, sizeof(int), 3, f)` into the uninitialised `int dims[3]`. */
  function ReadDims(file: seq<byte>, staleDims: seq<byte>): (dims: seq<int32>)
    requires |staleDims| == 12
    ensures |dims| == 3
  {
    var ws := DecodeWords(Fread(staleDims, file, DIMS_AT));
    [BitsToInt32(ws[0]), BitsToInt32(ws[1]), BitsToInt32(ws[2])]
  }

  /** `fread` of a parameter array that held `dest` before the read. */
  function ReadWords(dest: seq<Bits32>, file: seq<byte>, pos: nat): (ws: seq<Bits32>)
    ensures |ws| == |dest|
  {
    DecodeWords(Fread(EncodeWords(dest), file, pos))
  }

  function ReadStats(dest: seq<Stats>, file: seq<byte>, pos: nat): (ss: seq<Stats>)
    ensures |ss| == |dest|
  {
    WordsStats(ReadWords(StatsWords(dest), file, pos))
  }

  /**
   * `load_model` on the contents `file`: `staleDims` is what the
   * uninitialised dimension buffer happens to hold, and `prior` is what the
   * destination arrays (the network's and the global stats) held before.
   * The read results of the parameter `fread` calls are not checked, as in
   * the source.
   */
  function LoadModel(file: seq<byte>, staleDims: seq<byte>, prior: Model): (r: LoadResult)
    requires |staleDims| == 12 && prior.WellShaped()
    ensures r.Loaded? ==> r.model.WellShaped()
  {
    if !MagicAccepted(file) then Rejected
    else
      var dims := ReadDims(file, staleDims);
      if dims[0] != INPUT_NODES as int32 || dims[1] != HIDDEN_NODES as int32 || dims[2] != OUTPUT_NODES as int32 then Rejected
      else
        Loaded(Model(
          ReadWords(prior.weightsIH, file, IH_AT),
          ReadWords(prior.weightsHO, file, HO_AT),
          ReadWords(prior.biasH, file, BIAS_H_AT),
          ReadWords(prior.biasO, file, BIAS_O_AT),
          ReadStats(prior.inStats, file, IN_STATS_AT),
          ReadStats(prior.outStats, file, OUT_STATS_AT)))
  }

  /** The parameters a complete file holds after its 16-byte header. */
  function ParseBody(file: seq<byte>): (m: Model)
    requires |file| >= FILE_BYTES
    ensures m.WellShaped()
  {
    Model(
      DecodeWords(file[IH_AT .. HO_AT]),
      DecodeWords(file[HO_AT .. BIAS_H_AT]),
      DecodeWords(file[BIAS_H_AT .. BIAS_O_AT]),
      DecodeWords(file[BIAS_O_AT .. IN_STATS_AT]),
      WordsStats(DecodeWords(file[IN_STATS_AT .. OUT_STATS_AT])),
      WordsStats(DecodeWords(file[OUT_STATS_AT .. FILE_BYTES])))
  }

  // ---------------------------------------------------------------------------
  // Layout of a saved file
  // ---------------------------------------------------------------------------

  /** `save_model` writes exactly these fields, in this order, and nothing else. */
  lemma SaveModelLayout(m: Model)
    requires m.WellShaped()
    ensures var file := SaveModel(m);
      && |file| == FILE_BYTES
      && file[..DIMS_AT] == MAGIC
      && file[DIMS_AT .. IH_AT] == DimsBytes()
      && file[IH_AT .. HO_AT] == EncodeWords(m.weightsIH)
      && file[HO_AT .. BIAS_H_AT] == EncodeWords(m.weightsHO)
      && file[BIAS_H_AT .. BIAS_O_AT] == EncodeWords(m.biasH)
      && file[BIAS_O_AT .. IN_STATS_AT] == EncodeWords(m.biasO)
      && file[IN_STATS_AT .. OUT_STATS_AT] == EncodeWords(StatsWords(m.inStats))
      && file[OUT_STATS_AT ..] == EncodeWords(StatsWords(m.outStats))
  {
  }

  /** The header carries the integers 8, 16 and 2. */
  lemma SavedDims(m: Model)
    requires m.WellShaped()
    ensures var ws := DecodeWords(SaveModel(m)[DIMS_AT .. IH_AT]);
      BitsToInt32(ws[0]) == 8 && BitsToInt32(ws[1]) == 16 && BitsToInt32(ws[2]) == 2
  {
    SaveModelLayout(m);
    var ws := [Int32ToBits(INPUT_NODES as int32), Int32ToBits(HIDDEN_NODES as int32), Int32ToBits(OUTPUT_NODES as int32)];
    DecodeEncodeWords(ws);
  }

  /** `weights_ih[j][i]` is the word at byte 16 + 4 * (16 * j + i): row-major by input index. */
  lemma SavedWeightIH(m: Model, j: nat, i: nat)
    requires m.WellShaped() && j < INPUT_NODES && i < HIDDEN_NODES
    ensures var at := IH_AT + 4 * (HIDDEN_NODES * j + i);
      DecodeWord(SaveModel(m)[at .. at + 4]) == m.weightsIH[HIDDEN_NODES * j + i]
  {
    var file := SaveModel(m);
    var k := HIDDEN_NODES * j + i;
    SaveModelLayout(m);
    EncodeWordsAt(m.weightsIH, k);
    assert file[IH_AT + 4 * k .. IH_AT + 4 * k + 4] == file[IH_AT .. HO_AT][4 * k .. 4 * k + 4];
    DecodeEncodeWord(m.weightsIH[k]);
  }

  /** Input stats record `k` is a mean word then a std word, 8 bytes per record. */
  lemma SavedInStats(m: Model, k: nat)
    requires m.WellShaped() && k < IN_STATS
    ensures var at := IN_STATS_AT + 8 * k;
      && DecodeWord(SaveModel(m)[at .. at + 4]) == m.inStats[k].mean
      && DecodeWord(SaveModel(m)[at + 4 .. at + 8]) == m.inStats[k].std
  {
    var file := SaveModel(m);
    var ws := StatsWords(m.inStats);
    SaveModelLayout(m);
    EncodeWordsAt(ws, 2 * k);
    EncodeWordsAt(ws, 2 * k + 1);
    var at := IN_STATS_AT + 8 * k;
    assert file[at .. at + 4] == file[IN_STATS_AT .. OUT_STATS_AT][4 * (2 * k) .. 4 * (2 * k) + 4];
    assert file[at + 4 .. at + 8] == file[IN_STATS_AT .. OUT_STATS_AT][4 * (2 * k + 1) .. 4 * (2 * k + 1) + 4];
    DecodeEncodeWord(ws[2 * k]);
    DecodeEncodeWord(ws[2 * k + 1]);
  }

  // ---------------------------------------------------------------------------
  // The header checks of the loader
  // ---------------------------------------------------------------------------

  /** With a NUL-free pattern, `strncmp` is 0 exactly when the first `n` bytes agree. */
  lemma {:induction false} StrncmpZero(a: seq<byte>, b: seq<byte>, n: nat)
    requires n <= |a| && n <= |b|
    requires forall k :: 0 <= k < n ==> b[k] != 0
    ensures Strncmp(a, b, n) == 0 <==> a[..n] == b[..n]
  {
    if n > 0 && a[0] == b[0] {
      StrncmpZero(a[1..], b[1..], n - 1);
      assert a[..n] == [a[0]] + a[1..][..n - 1];
      assert b[..n] == [b[0]] + b[1..][..n - 1];
    }
  }

  /**
   * The magic check passes exactly when the file starts with "NNMD"; a file
   * shorter than 4 bytes leaves zeros in the buffer and always fails.
   */
  lemma MagicCheck(file: seq<byte>)
    ensures MagicAccepted(file) <==> |file| >= 4 && file[..4] == MAGIC
  {
    var magic := MagicBuffer(file);
    StrncmpZero(magic, MAGIC + [0], 4);
    assert (MAGIC + [0])[..4] == MAGIC;
    if |file| < 4 {
      assert magic[3] == 0;
    } else {
      assert magic[..4] == file[..4];
    }
  }

  /** The dimension check passes exactly when bytes 4..16 are those `save_model` writes. */
  lemma DimsCheck(file: seq<byte>, staleDims: seq<byte>)
    requires |staleDims| == 12 && |file| >= IH_AT
    ensures var dims := ReadDims(file, staleDims);
      (dims[0] == 8 && dims[1] == 16 && dims[2] == 2) <==> file[DIMS_AT .. IH_AT] == DimsBytes()
  {
    var bs := Fread(staleDims, file, DIMS_AT);
    assert bs == file[DIMS_AT .. IH_AT];
    var ws := DecodeWords(bs);
    var expected := [Int32ToBits(8), Int32ToBits(16), Int32ToBits(2)];
    DecodeEncodeWords(expected);
    EncodeDecodeWords(bs);
    Int32RoundTrip(8, ws[0]);
    Int32RoundTrip(16, ws[1]);
    Int32RoundTrip(2, ws[2]);
    if BitsToInt32(ws[0]) == 8 && BitsToInt32(ws[1]) == 16 && BitsToInt32(ws[2]) == 2 {
      assert ws == expected;
    }
  }

  /** A file that does not begin with "NNMD" (a short one included) is rejected. */
  lemma LoadRejectsBadMagic(file: seq<byte>, staleDims: seq<byte>, prior: Model)
    requires |staleDims| == 12 && prior.WellShaped()
    requires |file| < 4 || file[..4] != MAGIC
    ensures LoadModel(file, staleDims, prior) == Rejected
  {
    MagicCheck(file);
  }

  /** A file with the right magic but another dimension triple is rejected. */
  lemma LoadRejectsBadDims(file: seq<byte>, staleDims: seq<byte>, prior: Model)
    requires |staleDims| == 12 && prior.WellShaped()
    requires |file| >= IH_AT && file[DIMS_AT .. IH_AT] != DimsBytes()
    ensures LoadModel(file, staleDims, prior) == Rejected
  {
    DimsCheck(file, staleDims);
  }

  /** Once the whole header is present, the loader accepts exactly the saved header. */
  lemma LoadAcceptsExactHeader(file: seq<byte>, staleDims: seq<byte>, prior: Model)
    requires |staleDims| == 12 && prior.WellShaped() && |file| >= IH_AT
    ensures LoadModel(file, staleDims, prior).Loaded? <==> file[..DIMS_AT] == MAGIC && file[DIMS_AT .. IH_AT] == DimsBytes()
  {
    MagicCheck(file);
    DimsCheck(file, staleDims);
  }

  // ---------------------------------------------------------------------------
  // What an accepted file yields
  // ---------------------------------------------------------------------------

  /** A read that the file covers completely yields the file's words. */
  lemma ReadWordsCovered(dest: seq<Bits32>, file: seq<byte>, pos: nat)
    requires pos + 4 * |dest| <= |file|
    ensures ReadWords(dest, file, pos) == DecodeWords(file[pos .. pos + 4 * |dest|])
  {
    assert Fread(EncodeWords(dest), file, pos) == file[pos .. pos + 4 * |dest|];
  }

  /** A read that starts at or beyond the end leaves the destination as it was. */
  lemma ReadWordsPastEnd(dest: seq<Bits32>, file: seq<byte>, pos: nat)
    requires |file| <= pos
    ensures ReadWords(dest, file, pos) == dest
  {
    DecodeEncodeWords(dest);
  }

  /**
   * A complete, well-formed file: the loaded parameters are the file's,
   * whatever the destination held before.
   */
  lemma LoadCompleteFile(file: seq<byte>, staleDims: seq<byte>, prior: Model)
    requires |staleDims| == 12 && prior.WellShaped() && |file| >= FILE_BYTES
    requires file[..DIMS_AT] == MAGIC && file[DIMS_AT .. IH_AT] == DimsBytes()
    ensures LoadModel(file, staleDims, prior) == Loaded(ParseBody(file))
  {
    LoadAcceptsExactHeader(file, staleDims, prior);
    ReadWordsCovered(prior.weightsIH, file, IH_AT);
    ReadWordsCovered(prior.weightsHO, file, HO_AT);
    ReadWordsCovered(prior.biasH, file, BIAS_H_AT);
    ReadWordsCovered(prior.biasO, file, BIAS_O_AT);
    ReadWordsCovered(StatsWords(prior.inStats), file, IN_STATS_AT);
    ReadWordsCovered(StatsWords(prior.outStats), file, OUT_STATS_AT);
  }

  /**
   * A file cut off right after a valid header is still accepted, and every
   * parameter keeps its previous value: the source ignores the short reads.
   */
  lemma LoadHeaderOnly(file: seq<byte>, staleDims: seq<byte>, prior: Model)
    requires |staleDims| == 12 && prior.WellShaped() && |file| == IH_AT
    requires file[..DIMS_AT] == MAGIC && file[DIMS_AT .. IH_AT] == DimsBytes()
    ensures LoadModel(file, staleDims, prior) == Loaded(prior)
  {
    LoadAcceptsExactHeader(file, staleDims, prior);
    ReadWordsPastEnd(prior.weightsIH, file, IH_AT);
    ReadWordsPastEnd(prior.weightsHO, file, HO_AT);
    ReadWordsPastEnd(prior.biasH, file, BIAS_H_AT);
    ReadWordsPastEnd(prior.biasO, file, BIAS_O_AT);
    ReadWordsPastEnd(StatsWords(prior.inStats), file, IN_STATS_AT);
    ReadWordsPastEnd(StatsWords(prior.outStats), file, OUT_STATS_AT);
    WordsStatsRoundTrip(prior.inStats);
    WordsStatsRoundTrip(prior.outStats);
  }

  /** The body of a saved file parses back to the saved parameters. */
  lemma ParseSaved(m: Model)
    requires m.WellShaped()
    ensures ParseBody(SaveModel(m)) == m
  {
    var file := SaveModel(m);
    SaveModelLayout(m);
    assert file[OUT_STATS_AT .. FILE_BYTES] == file[OUT_STATS_AT ..];
    DecodeEncodeWords(m.weightsIH);
    DecodeEncodeWords(m.weightsHO);
    DecodeEncodeWords(m.biasH);
    DecodeEncodeWords(m.biasO);
    DecodeEncodeWords(StatsWords(m.inStats));
    DecodeEncodeWords(StatsWords(m.outStats));
    WordsStatsRoundTrip(m.inStats);
    WordsStatsRoundTrip(m.outStats);
  }

  /** Round trip: loading what `save_model` wrote restores every parameter and stat. */
  lemma LoadSaveRoundTrip(m: Model, staleDims: seq<byte>, prior: Model)
    requires m.WellShaped() && prior.WellShaped() && |staleDims| == 12
    ensures LoadModel(SaveModel(m), staleDims, prior) == Loaded(m)
  {
    SaveModelLayout(m);
    LoadCompleteFile(SaveModel(m), staleDims, prior);
    ParseSaved(m);
  }

  /** Splitting the words of a `Stats` array into records and back loses nothing. */
  lemma {:induction false} StatsWordsRoundTrip(ws: seq<Bits32>)
    requires |ws| % 2 == 0
    ensures StatsWords(WordsStats(ws)) == ws
  {
    if ws != [] {
      StatsWordsRoundTrip(ws[2..]);
      assert ws == [ws[0], ws[1]] + ws[2..];
    }
  }

  /** Writing back the parameters a complete file holds reproduces the file. */
  lemma SaveParseRoundTrip(file: seq<byte>)
    requires |file| == FILE_BYTES
    requires file[..DIMS_AT] == MAGIC && file[DIMS_AT .. IH_AT] == DimsBytes()
    ensures SaveModel(ParseBody(file)) == file
  {
    var m := ParseBody(file);
    assert EncodeWords(m.weightsIH) == file[IH_AT .. HO_AT] by {
      EncodeDecodeWords(file[IH_AT .. HO_AT]);
    }
    assert EncodeWords(m.weightsHO) == file[HO_AT .. BIAS_H_AT] by {
      EncodeDecodeWords(file[HO_AT .. BIAS_H_AT]);
    }
    assert EncodeWords(m.biasH) == file[BIAS_H_AT .. BIAS_O_AT] by {
      EncodeDecodeWords(file[BIAS_H_AT .. BIAS_O_AT]);
    }
    assert EncodeWords(m.biasO) == file[BIAS_O_AT .. IN_STATS_AT] by {
      EncodeDecodeWords(file[BIAS_O_AT .. IN_STATS_AT]);
    }
    assert EncodeWords(StatsWords(m.inStats)) == file[IN_STATS_AT .. OUT_STATS_AT] by {
      StatsWordsRoundTrip(DecodeWords(file[IN_STATS_AT .. OUT_STATS_AT]));
      EncodeDecodeWords(file[IN_STATS_AT .. OUT_STATS_AT]);
    }
    assert EncodeWords(StatsWords(m.outStats)) == file[OUT_STATS_AT .. FILE_BYTES] by {
      StatsWordsRoundTrip(DecodeWords(file[OUT_STATS_AT .. FILE_BYTES]));
      EncodeDecodeWords(file[OUT_STATS_AT .. FILE_BYTES]);
    }
    PrefixSplit(file, DIMS_AT, IH_AT);
    PrefixSplit(file, IH_AT, HO_AT);
    PrefixSplit(file, HO_AT, BIAS_H_AT);
    PrefixSplit(file, BIAS_H_AT, BIAS_O_AT);
    PrefixSplit(file, BIAS_O_AT, IN_STATS_AT);
    PrefixSplit(file, IN_STATS_AT, OUT_STATS_AT);
    PrefixSplit(file, OUT_STATS_AT, FILE_BYTES);
    assert file[..FILE_BYTES] == file;
  }

  lemma PrefixSplit(s: seq<byte>, i: nat, j: nat)
    requires i <= j <= |s|
    ensures s[..j] == s[..i] + s[i .. j]
  {
  }

  /**
   * An 808-byte file with a valid header is loaded, and saving the loaded
   * parameters writes exactly that file again: the loader drops nothing.
   */
  lemma LoadedFileResaves(file: seq<byte>, staleDims: seq<byte>, prior: Model)
    requires |staleDims| == 12 && prior.WellShaped() && |file| == FILE_BYTES
    requires file[..DIMS_AT] == MAGIC && file[DIMS_AT .. IH_AT] == DimsBytes()
    ensures var r := LoadModel(file, staleDims, prior);
      r.Loaded? && SaveModel(r.model) == file
  {
    LoadCompleteFile(file, staleDims, prior);
    SaveParseRoundTrip(file);
  }

  /**
   * A file that ends inside the dimension triple leaves the rest of the
   * uninitialised `dims` buffer in the comparison: "NNMD" followed by the
   * ints 8 and 16 alone is accepted exactly when the stale third word is 2.
   */
  lemma ShortHeaderUsesStaleDims(file: seq<byte>, staleDims: seq<byte>, prior: Model)
    requires |staleDims| == 12 && prior.WellShaped() && |file| == 12
    requires file[..DIMS_AT] == MAGIC && file[DIMS_AT ..] == DimsBytes()[..8]
    ensures LoadModel(file, staleDims, prior).Loaded? <==> BitsToInt32(DecodeWord(staleDims[8..])) == 2
  {
    MagicCheck(file);
    var d := DimsBytes();
    var expected := [Int32ToBits(8), Int32ToBits(16), Int32ToBits(2)];
    DecodeEncodeWords(expected);
    DecodeWordsAt(d, 0);
    DecodeWordsAt(d, 1);
    var bs := Fread(staleDims, file, DIMS_AT);
    assert bs == file[DIMS_AT ..] + staleDims[8..];
    DecodeWordsAt(bs, 0);
    DecodeWordsAt(bs, 1);
    DecodeWordsAt(bs, 2);
    assert bs[0..4] == d[0..4] && bs[4..8] == d[4..8] && bs[8..12] == staleDims[8..];
    Int32RoundTrip(8, 0);
    Int32RoundTrip(16, 0);
  }
}
