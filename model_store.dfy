/**
 * The memory that `save_model` writes out and `load_model` fills in
 * (main.c:41-74): the network's four parameter arrays and the two global
 * `Stats` arrays, seen as raw 32-bit patterns. Each method works field by
 * field and is proved against the pure format in `ModelFile`.
 */
module ModelStore {
  import opened Words
  import opened Topology
  import opened ModelFile

  /** `StatsWords` grows by one record's two words. */
  lemma {:induction false} StatsWordsSnoc(ss: seq<Stats>, s: Stats)
    ensures StatsWords(ss + [s]) == StatsWords(ss) + [s.mean, s.std]
  {
    if ss != [] {
      assert (ss + [s])[1..] == ss[1..] + [s];
      StatsWordsSnoc(ss[1..], s);
    } else {
      assert ss + [s] == [s];
    }
  }

  /** Record `k` of the stats decoded from a word array is words `2k` and `2k + 1`. */
  lemma {:induction false} WordsStatsAt(ws: seq<Bits32>, k: nat)
    requires |ws| % 2 == 0 && 2 * k < |ws|
    ensures WordsStats(ws)[k] == Stats(ws[2 * k], ws[2 * k + 1])
  {
    if k > 0 {
      WordsStatsAt(ws[2..], k - 1);
    }
  }

  /** Reading an array word by word is the same as one `fread` of all its bytes. */
  lemma ReadWordsAt(dest: seq<Bits32>, file: seq<byte>, pos: nat, k: nat)
    requires k < |dest|
    ensures ReadWords(dest, file, pos)[k] == DecodeWord(Fread(EncodeWord(dest[k]), file, pos + 4 * k))
  {
    var bytes := EncodeWords(dest);
    var read := Fread(bytes, file, pos);
    DecodeWordsAt(read, k);
    EncodeWordsAt(dest, k);
    assert read[4 * k .. 4 * k + 4] == Fread(bytes[4 * k .. 4 * k + 4], file, pos + 4 * k);
  }

  /** ReadWordsAt with the element and its offset named by the caller. */
  lemma ReadWordAtValue(dest: seq<Bits32>, file: seq<byte>, pos: nat, k: nat, w: Bits32, off: nat)
    requires k < |dest| && dest[k] == w && off == pos + 4 * k
    ensures ReadWords(dest, file, pos)[k] == DecodeWord(Fread(EncodeWord(w), file, off))
  {
    ReadWordsAt(dest, file, pos, k);
  }

  /** The mean of record `k` after a `Stats` array's `fread` is the word read at offset `8k`. */
  lemma ReadStatsMeanAt(dest: seq<Stats>, file: seq<byte>, pos: nat, k: nat)
    requires k < |dest|
    ensures ReadStats(dest, file, pos)[k].mean == DecodeWord(Fread(EncodeWord(dest[k].mean), file, pos + 8 * k))
  {
    var ws := StatsWords(dest);
    ReadWordAtValue(ws, file, pos, 2 * k, dest[k].mean, pos + 8 * k);
    WordsStatsAt(ReadWords(ws, file, pos), k);
  }

  /** The std of record `k` is the word read at offset `8k + 4`. */
  lemma ReadStatsStdAt(dest: seq<Stats>, file: seq<byte>, pos: nat, k: nat)
    requires k < |dest|
    ensures ReadStats(dest, file, pos)[k].std == DecodeWord(Fread(EncodeWord(dest[k].std), file, pos + 8 * k + 4))
  {
    var ws := StatsWords(dest);
    var m := 2 * k + 1;
    assert ws[m] == dest[k].std && pos + 8 * k + 4 == pos + 4 * m;
    ReadWordAtValue(ws, file, pos, m, dest[k].std, pos + 8 * k + 4);
    WordsStatsAt(ReadWords(ws, file, pos), k);
  }

  lemma ReadStatsAt(dest: seq<Stats>, file: seq<byte>, pos: nat, k: nat)
    requires k < |dest|
    ensures ReadStats(dest, file, pos)[k] ==
      Stats(DecodeWord(Fread(EncodeWord(dest[k].mean), file, pos + 8 * k)),
            DecodeWord(Fread(EncodeWord(dest[k].std), file, pos + 8 * k + 4)))
  {
    ReadStatsMeanAt(dest, file, pos, k);
    ReadStatsStdAt(dest, file, pos, k);
  }

  /** `fwrite(a, sizeof(float), a.Length, f)` appended to what was written so far. */
  method WriteWords(file: seq<byte>, a: array<Bits32>) returns (out: seq<byte>)
    ensures out == file + EncodeWords(a[..])
  {
    out := file;
    for k := 0 to a.Length
      invariant out == file + EncodeWords(a[..k])
    {
      assert a[..k + 1] == a[..k] + [a[k]];
      EncodeWordsAppend(a[..k], [a[k]]);
      out := out + EncodeWord(a[k]);
    }
    assert a[..a.Length] == a[..];
  }

  /** `fwrite(stats, sizeof(Stats), a.Length, f)`: mean then std, for each record. */
  method WriteStats(file: seq<byte>, a: array<Stats>) returns (out: seq<byte>)
    ensures out == file + EncodeWords(StatsWords(a[..]))
  {
    out := file;
    for k := 0 to a.Length
      invariant out == file + EncodeWords(StatsWords(a[..k]))
    {
      assert a[..k + 1] == a[..k] + [a[k]];
      StatsWordsSnoc(a[..k], a[k]);
      EncodeWordsAppend(StatsWords(a[..k]), [a[k].mean, a[k].std]);
      out := out + EncodeWord(a[k].mean) + EncodeWord(a[k].std);
    }
    assert a[..a.Length] == a[..];
  }

  /** `fread(a, sizeof(float), a.Length, f)` from byte `pos`, short reads included. */
  method ReadWordsInto(a: array<Bits32>, file: seq<byte>, pos: nat)
    modifies a
    ensures a[..] == ReadWords(old(a[..]), file, pos)
  {
    ghost var dest := a[..];
    for k := 0 to a.Length
      invariant forall i :: 0 <= i < k ==> a[i] == ReadWords(dest, file, pos)[i]
      invariant forall i :: k <= i < a.Length ==> a[i] == dest[i]
    {
      ReadWordsAt(dest, file, pos, k);
      a[k] := DecodeWord(Fread(EncodeWord(a[k]), file, pos + 4 * k));
    }
  }

  /** `fread(a, sizeof(Stats), a.Length, f)` from byte `pos`, short reads included. */
  method ReadStatsInto(a: array<Stats>, file: seq<byte>, pos: nat)
    modifies a
    ensures a[..] == ReadStats(old(a[..]), file, pos)
  {
    ghost var dest := a[..];
    for k := 0 to a.Length
      invariant forall i :: 0 <= i < k ==> a[i] == ReadStats(dest, file, pos)[i]
      invariant forall i :: k <= i < a.Length ==> a[i] == dest[i]
    {
      ReadStatsAt(dest, file, pos, k);
      var mean := DecodeWord(Fread(EncodeWord(a[k].mean), file, pos + 8 * k));
      var std := DecodeWord(Fread(EncodeWord(a[k].std), file, pos + 8 * k + 4));
      a[k] := Stats(mean, std);
    }
  }

  class ModelBuffers {
    /** `nn->weights_ih`, `nn->weights_ho`, `nn->bias_h`, `nn->bias_o` */
    const weightsIH: array<Bits32>
    const weightsHO: array<Bits32>
    const biasH: array<Bits32>
    const biasO: array<Bits32>
    /** the globals `in_stats` and `out_stats` */
    const inStats: array<Stats>
    const outStats: array<Stats>

    ghost predicate Valid() {
      && weightsIH.Length == IH_WORDS
      && weightsHO.Length == HO_WORDS
      && biasH.Length == HIDDEN_NODES
      && biasO.Length == OUTPUT_NODES
      && inStats.Length == IN_STATS
      && outStats.Length == OUT_STATS
    }

    /** What the buffers hold, as a value of the file format. */
    function Image(): (m: Model)
      reads weightsIH, weightsHO, biasH, biasO, inStats, outStats
      ensures Valid() ==> m.WellShaped()
    {
      Model(weightsIH[..], weightsHO[..], biasH[..], biasO[..], inStats[..], outStats[..])
    }

    constructor (m: Model)
      requires m.WellShaped()
      ensures Valid() && Image() == m
    {
      weightsIH := new Bits32[IH_WORDS](k requires 0 <= k < IH_WORDS => m.weightsIH[k]);
      weightsHO := new Bits32[HO_WORDS](k requires 0 <= k < HO_WORDS => m.weightsHO[k]);
      biasH := new Bits32[HIDDEN_NODES](k requires 0 <= k < HIDDEN_NODES => m.biasH[k]);
      biasO := new Bits32[OUTPUT_NODES](k requires 0 <= k < OUTPUT_NODES => m.biasO[k]);
      inStats := new Stats[IN_STATS](k requires 0 <= k < IN_STATS => m.inStats[k]);
      outStats := new Stats[OUT_STATS](k requires 0 <= k < OUT_STATS => m.outStats[k]);
    }

    /** `save_model`: the bytes written to the file, field by field. */
    method Save() returns (file: seq<byte>)
      requires Valid()
      ensures file == SaveModel(Image())
      ensures |file| == FILE_BYTES
    {
      var d0, d1, d2 := Int32ToBits(INPUT_NODES as int32), Int32ToBits(HIDDEN_NODES as int32), Int32ToBits(OUTPUT_NODES as int32);
      file := MAGIC;
      file := file + EncodeWord(d0);
      file := file + EncodeWord(d1);
      file := file + EncodeWord(d2);
      assert file == MAGIC + DimsBytes() by {
        assert [d0, d1, d2][1..] == [d1, d2] && [d1, d2][1..] == [d2] && [d2][1..] == [];
        assert EncodeWords([d2]) == EncodeWord(d2);
        assert EncodeWords([d1, d2]) == EncodeWord(d1) + EncodeWord(d2);
        assert DimsBytes() == EncodeWord(d0) + (EncodeWord(d1) + EncodeWord(d2));
      }
      file := WriteWords(file, weightsIH);
      file := WriteWords(file, weightsHO);
      file := WriteWords(file, biasH);
      file := WriteWords(file, biasO);
      file := WriteStats(file, inStats);
      file := WriteStats(file, outStats);
    }

    /**
     * `load_model` on the contents `file`. Both header checks come before
     * the first parameter read, so a rejected file changes nothing.
     */
    method Load(file: seq<byte>, staleDims: seq<byte>) returns (ok: bool)
      requires Valid() && |staleDims| == 12
      modifies weightsIH, weightsHO, biasH, biasO, inStats, outStats
      ensures Valid()
      ensures var r := LoadModel(file, staleDims, old(Image()));
        ok == r.Loaded? && Image() == if ok then r.model else old(Image())
    {
      var magic := Fread([0, 0, 0, 0], file, 0) + [0];
      if Strncmp(magic, MAGIC + [0], 4) != 0 {
        return false;
      }
      var dims := ReadDims(file, staleDims);
      if dims[0] != INPUT_NODES as int32 || dims[1] != HIDDEN_NODES as int32 || dims[2] != OUTPUT_NODES as int32 {
        return false;
      }
      ReadWordsInto(weightsIH, file, IH_AT);
      ReadWordsInto(weightsHO, file, HO_AT);
      ReadWordsInto(biasH, file, BIAS_H_AT);
      ReadWordsInto(biasO, file, BIAS_O_AT);
      ReadStatsInto(inStats, file, IN_STATS_AT);
      ReadStatsInto(outStats, file, OUT_STATS_AT);
      ok := true;
    }
  }
}
