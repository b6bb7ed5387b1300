# RNparaClima network core in Dafny

This project models the core of `main.c`. That C program trains a small
feed-forward neural network (8 inputs, 16 ReLU hidden units, 2 linear outputs)
on weather data. It trains with a per-sample delta rule and saves the trained
parameters to `model.bin`. The model covers:

- **Persistence** (`save_model` / `load_model`). `ModelFile` defines the binary
  file format as pure functions over bytes. The layout is the magic `"NNMD"`,
  the `int` triple (8, 16, 2), then `weights_ih`, `weights_ho`, `bias_h`,
  `bias_o`, and the 8 + 2 `Stats` records, 808 bytes in all. `fread` is
  modelled with its short reads: the bytes the file still has overwrite the
  front of the buffer, and the rest of the buffer keeps what it held. The
  uninitialised `int dims[3]` is a parameter (`staleDims`). `ModelStore`
  defines the memory that the two functions write out and fill in: a class of
  arrays, with `Save` and `Load` methods proved against `ModelFile`.
- **Network** (`relu`, `drelu`, `zscore`, `inv_zscore`, `feedforward`,
  `train`). `NetworkSpec` defines what the network computes, over `real`.
  `Network.NeuralNetwork` is the C struct as a class of arrays. Its methods
  make the same in-place updates as the C loops, and each is proved equal to
  the `NetworkSpec` definition.
- **Shuffling** (`shuffle_indices`). It is a Fisher–Yates pass over an
  `array<int>` with the values of `rand()` given as input. It is proved to
  compute `Shuffled` and to keep a bijection on `0 .. n-1` a bijection.
- **Training loop** (the epoch loop in `main`). `Training.Epochs` is the run
  as a function. `Training.TrainingLoop` executes it on the network object.
  It is proved equal to `Epochs`.

The 2-D C arrays are stored row-major, as C lays them out in memory:
`weights_ih[j][i]` is element `j * 16 + i` and `weights_ho[j][i]` is
`j * 2 + i`.

The code computes `err_h` from the ALREADY-UPDATED `weights_ho`, and the model
does the same. Textbook backpropagation would use the pre-update weights.
`NetworkSpec.HiddenErrorUsesUpdatedWeights` states the exact difference
between the two readings.

## Model

| member | source | states |
|---|---|---|
| Words.EncodeWord | main.c:44-52 | the 4 bytes written for an `int` or `float`, least significant first: their base-256 weighted sum is the word |
| Words.DecodeWord | main.c:61-71 | the word read from 4 bytes, least significant first: its lowest 8 bits are the first byte (that it inverts `EncodeWord` is `Words.EncodeDecodeWord` and `Words.DecodeEncodeWord`) |
| Words.Int32ToBits | main.c:45-46 | the 32-bit pattern stored for an `int`: congruent to the value modulo 2^32 (two's complement) |
| Words.BitsToInt32 | main.c:63-65 | the `int` a stored 32-bit pattern reads back as: congruent to the pattern modulo 2^32 |
| Words.EncodeWords | main.c:47-52 | the bytes `fwrite` of a word array produces: 4 per word (where each word lands is `Words.EncodeWordsAt`) |
| Words.DecodeWords | main.c:66-71 | the words `fread` into a word array takes from its bytes: one per 4 bytes (where each comes from is `Words.DecodeWordsAt`) |
| Words.DecodeEncodeWord | main.c:46-52 | decoding the 4 bytes written for a word gives back that word |
| Words.EncodeDecodeWord | main.c:64-71 | any 4 bytes read into a word are written back as the same 4 bytes |
| Words.Int32RoundTrip | main.c:45-46 | two's complement `int` <-> 32-bit pattern is a bijection in both directions |
| Words.DecodeEncodeWords | main.c:47-52 | decoding an `fwrite` of a word array gives back the array |
| Words.EncodeDecodeWords | main.c:66-71 | every byte string of whole words is the encoding of its decoding |
| Words.DecodeWordsAt | main.c:66-71 | word `k` of a decoded byte string comes from bytes `4k .. 4k+4` |
| Words.EncodeWordsAt | main.c:47-52 | bytes `4k .. 4k+4` of an encoded array are the encoding of element `k` |
| ModelFile.StatsWords | main.c:37-38 | a `Stats` array in memory is mean, std, mean, std, …: record `k` fills words `2k` and `2k+1` |
| ModelFile.WordsStats | main.c:70-71 | a word array read back as `Stats` records, two words per record (which two is `ModelStore.WordsStatsAt`) |
| ModelFile.WordsStatsRoundTrip | main.c:37-38 | regrouping the words of a `Stats` array into records gives back the array |
| ModelFile.StatsWordsRoundTrip | main.c:70-71 | grouping words into `Stats` records and laying them out again gives back the words |
| ModelFile.DimsBytes | main.c:45-46 | the 12 bytes `save_model` writes for the `int` triple (8, 16, 2) |
| ModelFile.SaveModel | main.c:41-55 | the file `save_model` writes is 808 bytes long and starts with `"NNMD"` |
| ModelFile.SaveModelLayout | main.c:44-52 | the saved file is exactly magic, dims, `weights_ih`, `weights_ho`, `bias_h`, `bias_o`, input stats, output stats at the stated offsets |
| ModelFile.SavedDims | main.c:45-46 | the header's three `int`s read back as 8, 16 and 2 |
| ModelFile.SavedWeightIH | main.c:47 | `weights_ih[j][i]` is the word at byte `16 + 4 * (16j + i)` |
| ModelFile.SavedInStats | main.c:51 | input stats record `k` is the mean word at `728 + 8k` and the std word after it |
| ModelFile.Fread | main.c:61-71 | `fread` into a buffer at a file offset: the bytes the file still has overwrite the front of the buffer, the rest keeps what it held; the length never changes |
| ModelFile.Strncmp | main.c:62 | C's `strncmp` over at most `n` bytes, stopping at a NUL: 0 when the first `n` bytes agree, positive or negative only where some byte is larger or smaller |
| ModelFile.MagicBuffer | main.c:60-61 | the zeroed 5-byte `magic` buffer after reading 4 bytes: byte `k` is the file's byte `k` if it exists, else 0, and the terminator stays 0 |
| ModelFile.MagicAccepted | main.c:62 | the magic check `strncmp(magic, "NNMD", 4) == 0` on that buffer |
| ModelFile.ReadDims | main.c:63-64 | the three `int`s in `dims` after the `fread`: decoded from the file's bytes 4..16 where present, from the stale buffer contents where not |
| ModelFile.ReadWords | main.c:66-69 | a float array after its `fread`: the destination's bytes overlaid with what the file has from the array's offset on |
| ModelFile.ReadStats | main.c:70-71 | a `Stats` array after its `fread`, read as its mean/std words |
| ModelFile.ParseBody | main.c:66-71 | the parameters and stats stored in bytes 16..808 of a complete file, at the offsets `save_model` uses |
| ModelFile.StrncmpZero | main.c:62 | against a NUL-free pattern, `strncmp(a, b, n) == 0` iff the first `n` bytes agree |
| ModelFile.MagicCheck | main.c:60-62 | the magic check passes iff the file has at least 4 bytes and they are `"NNMD"` |
| ModelFile.DimsCheck | main.c:63-65 | with the header present, the dimension check passes iff bytes 4..16 are those `save_model` writes |
| ModelFile.ShortHeaderUsesStaleDims | main.c:63-65 | a 12-byte file `"NNMD"`, 8, 16 is accepted exactly when the third word left in the uninitialised `dims` is 2 |
| ModelFile.LoadModel | main.c:57-74 | an accepted file always yields a model of the fixed array sizes |
| ModelFile.LoadRejectsBadMagic | main.c:62 | a file not starting with `"NNMD"`, a short one included, is rejected whatever the buffers held |
| ModelFile.LoadRejectsBadDims | main.c:65 | a file with another dimension triple is rejected |
| ModelFile.LoadAcceptsExactHeader | main.c:60-65 | a file with a full header is accepted iff the header is exactly the saved one |
| ModelFile.ReadWordsCovered | main.c:66-71 | a parameter read that the file covers yields the file's words |
| ModelFile.ReadWordsPastEnd | main.c:66-71 | a parameter read at or past end of file leaves the destination unchanged |
| ModelFile.LoadCompleteFile | main.c:57-74 | a complete file with a valid header loads the parameters it stores, independent of what was in memory |
| ModelFile.LoadHeaderOnly | main.c:66-74 | a file cut off right after a valid header is still accepted and every parameter keeps its previous value |
| ModelFile.ParseSaved | main.c:47-52 | the body of a saved file parses back to the saved parameters |
| ModelFile.LoadSaveRoundTrip | main.c:41-74 | loading what `save_model` wrote restores every weight, bias and stat bit for bit, whatever memory held before |
| ModelFile.SaveParseRoundTrip | main.c:41-74 | saving the parameters parsed from an 808-byte file with a valid header writes that file again |
| ModelFile.LoadedFileResaves | main.c:41-74 | such a file is always loaded, and saving what was loaded reproduces it byte for byte: the loader loses nothing |
| ModelStore.StatsWordsSnoc | main.c:51-52 | one more `Stats` record adds its mean and std words at the end |
| ModelStore.WordsStatsAt | main.c:70-71 | record `k` regrouped from words is words `2k` and `2k+1` |
| ModelStore.ReadWordsAt | main.c:66-69 | one `fread` of a whole word array equals reading each word at its own offset |
| ModelStore.ReadStatsAt | main.c:70-71 | one `fread` of a `Stats` array equals reading each record's two words at `8k` and `8k+4` |
| ModelStore.WriteWords | main.c:47-50 | the word-by-word write loop appends exactly the encoding of the array |
| ModelStore.WriteStats | main.c:51-52 | the record-by-record write loop appends exactly the encoding of the `Stats` array |
| ModelStore.ReadWordsInto | main.c:66-69 | the in-place read of a word array leaves what the format's `fread` yields, short reads included |
| ModelStore.ReadStatsInto | main.c:70-71 | the in-place read of a `Stats` array leaves what the format's `fread` yields |
| ModelStore.ModelBuffers.constructor | main.c:24-38 | buffers of the fixed sizes holding the given parameters and stats |
| ModelStore.ModelBuffers.Save | main.c:41-55 | the bytes written are exactly the file format of the current buffers, 808 of them |
| ModelStore.ModelBuffers.Load | main.c:57-74 | returns 1 iff the format accepts the file; then the buffers hold the loaded model, otherwise nothing changed |
| NetworkSpec.Relu | main.c:17 | the result is `max(x, 0)`: never negative, at least `x`, and either `x` or 0 |
| NetworkSpec.DRelu | main.c:18 | the derivative is 0 or 1, and 1 exactly when the activation is positive |
| NetworkSpec.ZScore | main.c:19 | `(x - mean) / (std + 1e-8)`, defined where the divisor is not 0 |
| NetworkSpec.InvZScore | main.c:20 | `z * std + mean` |
| NetworkSpec.ZScoreRoundTrip | main.c:19-20 | `inv_zscore(zscore(x))` is `x` pulled towards the mean by exactly `(x - mean) * eps / (std + eps)` |
| NetworkSpec.HiddenLayer | main.c:132-136 | every hidden activation is non-negative |
| NetworkSpec.HiddenSum | main.c:133-134 | `bias_h[i]` plus `input[j] * weights_ih[j][i]` over the first `n` inputs, summed in loop order |
| NetworkSpec.OutputSum | main.c:138-139 | `bias_o[i]` plus `hidden[j] * weights_ho[j][i]` over the first `n` hidden units, summed in loop order |
| NetworkSpec.OutputLayer | main.c:137-141 | each output is its full `OutputSum`, with no activation; there are 2 of them |
| NetworkSpec.Forward | main.c:131-142 | the forward pass has 16 non-negative hidden activations and 2 outputs |
| NetworkSpec.OutputError | main.c:152 | `err_o[i] = target[i] - output[i]` for both outputs |
| NetworkSpec.OutputBiasStep | main.c:156-157 | `bias_o[i]` moved by `err_o[i] * lr` |
| NetworkSpec.OutputWeightStep | main.c:158 | `weights_ho[j][i]` moved by `(err_o[i] * lr) * hidden[j]`, for every `j` and `i` |
| NetworkSpec.ErrorSum | main.c:165 | `weights_ho[i][k] * err_o[k]` summed over the first `n` outputs, starting from 0 |
| NetworkSpec.HiddenError | main.c:162-165 | `err_h[i]` as the full `ErrorSum` for row `i` of the weights it is given |
| NetworkSpec.HiddenGrad | main.c:169 | `drelu(hidden[i]) * err_h[i] * lr` for every hidden unit |
| NetworkSpec.HiddenBiasStep | main.c:170 | `bias_h[i]` moved by its gradient |
| NetworkSpec.InputWeightStep | main.c:171 | `weights_ih[j][i]` moved by `grad[i] * input[j]`, for every `j` and `i` |
| NetworkSpec.Step | main.c:145-173 | one training step keeps every weight and bias array at its fixed size |
| NetworkSpec.ZeroErrorSum | main.c:164-165 | a zero output error gives a zero hidden error whatever the weights |
| NetworkSpec.ZeroOutputErrorSteps | main.c:155-165 | a zero output error changes neither `weights_ho` nor `bias_o` and gives zero `err_h` |
| NetworkSpec.ZeroGradSteps | main.c:168-172 | zero hidden gradients change neither `weights_ih` nor `bias_h` |
| NetworkSpec.ZeroErrorNoChange | main.c:145-173 | a target equal to the network's own output leaves every weight and bias unchanged |
| NetworkSpec.HiddenUpdateGated | main.c:168-172 | hidden unit `i` moves its bias by `err_h[i] * lr` and its `weights_ih` column by that times the input when active, and by 0 when inactive |
| NetworkSpec.DeadHiddenUnitFrozen | main.c:168-172 | a hidden unit with activation 0 keeps its bias and its whole `weights_ih` column |
| NetworkSpec.HiddenErrorUsesUpdatedWeights | main.c:155-165 | `err_h[i]` as computed exceeds the pre-update reading by exactly `lr * hidden[i] * (err_o[0]^2 + err_o[1]^2)` |
| NetworkSpec.StepFromZero | main.c:145-173 | from all-zero parameters, one step changes only `bias_o`, to `target * lr` |
| NetworkSpec.ForwardFromZero | main.c:131-142 | the all-zero network has zero hidden activations and outputs |
| NetworkSpec.InactiveOutputWeightStep | main.c:158 | with all hidden activations 0, the `weights_ho` update changes nothing |
| NetworkSpec.InactiveHiddenGrad | main.c:169 | with all hidden activations 0, every hidden gradient is 0 |
| NetworkSpec.OutputBiasFromZero | main.c:156-157 | from zero output biases the update leaves `err_o * lr` |
| NetworkSpec.ZeroWeightsHiddenSum | main.c:133-134 | with zero weights and zero bias the hidden sum is 0 |
| NetworkSpec.ZeroHiddenOutputSum | main.c:138-139 | with zero weights and zero bias the output sum is 0 |
| NetworkSpec.ZeroParams | main.c:29-33 | the all-zero parameters have the struct's array sizes |
| Network.NeuralNetwork.Params | main.c:29-33 | the parameters of a well-formed network have the fixed sizes |
| Network.NeuralNetwork.constructor | main.c:24-34 | a network holding the given parameters |
| Network.NeuralNetwork.SetInput | main.c:147 | after the copy the input buffer holds `x` |
| Network.NeuralNetwork.FeedForward | main.c:131-142 | the buffers hold the forward pass of the current parameters on the current input; only `hidden` and `output` change; hidden values are non-negative |
| Network.NeuralNetwork.UpdateOutputLayer | main.c:155-159 | `weights_ho` and `bias_o` become their delta-rule update for the given `err_o` and the current `hidden` |
| Network.NeuralNetwork.ComputeHiddenError | main.c:162-165 | the new `err_h` array is the hidden error from the current `weights_ho` |
| Network.NeuralNetwork.UpdateHiddenLayer | main.c:168-172 | `weights_ih` and `bias_h` become their ReLU-gated update for `err_h` |
| Network.NeuralNetwork.Train | main.c:145-173 | the parameters become exactly one `Step`; the input holds `x`; the buffers hold the forward pass of the PRE-update parameters |
| Shuffle.Iota | main.c:216 | the identity array: length `n`, element `k` is `k` |
| Shuffle.Swap | main.c:179 | entries `i` and `j` are exchanged and every other entry is unchanged |
| Shuffle.Pick | main.c:178 | the swap partner `rand() % (i + 1)` is at most `i` |
| Shuffle.ShuffleFrom | main.c:177-180 | the loop iterations from `i` down to 1, iteration `i` swapping entry `i` with `Pick` of its roll; the length is kept |
| Shuffle.Shuffled | main.c:176-181 | the shuffle keeps the length, and arrays of 0 or 1 element are left as they are |
| Shuffle.ShuffleFromPermutes | main.c:177-180 | the remaining iterations only rearrange: same multiset |
| Shuffle.ShufflePermutes | main.c:176-181 | `shuffle_indices` yields a permutation of its input |
| Shuffle.IotaBijection | main.c:216 | the initial indices hold each of `0 .. n-1` exactly once |
| Shuffle.SwapBijection | main.c:179 | a swap keeps a bijection on `0 .. n-1` a bijection |
| Shuffle.ShuffleFromBijection | main.c:177-180 | the remaining iterations keep a bijection a bijection |
| Shuffle.ShuffleBijection | main.c:176-181 | shuffling a bijection on `0 .. n-1` gives a bijection |
| Shuffle.PermutationOfIotaRange | main.c:216-220 | a rearrangement of `0 .. n-1` contains exactly the values below `n` |
| Shuffle.ShuffleIndices | main.c:176-181 | the in-place loop leaves `Shuffled(old)` and a permutation of the old contents |
| Training.Square | main.c:229 | a squared error is never negative |
| Training.SampleLoss | main.c:227-229 | `err0*err0 + err1*err1` on a forward pass with the parameters before the sample's update; never negative |
| Training.RunSamples | main.c:222-231 | after the samples of an epoch the parameters keep their sizes and the summed loss is non-negative |
| Training.Mse | main.c:232 | the epoch MSE of a non-negative summed loss is non-negative |
| Training.Epochs | main.c:215-236 | after `e` epochs there are `e` non-negative MSE values and `indices` holds each of `0 .. n-1` once |
| Training.FittedSampleLoss | main.c:227-229 | a sample whose target equals the network's output contributes loss 0 |
| Training.LossMatchesUpdate | main.c:227-230 | the recorded loss times `lr^2` is the squared size of the `bias_o` step `train` makes on the same sample |
| Training.FittedEpochNoUpdate | main.c:222-231 | an epoch over samples the network already fits records loss 0 and leaves every parameter unchanged |
| Training.IndicesAfter | main.c:216-220 | the index order after `e` epochs: the identity, then one shuffle per epoch with that epoch's `rand()` values; length `n` |
| Training.IndicesAfterPermutation | main.c:216-220 | every such order is a permutation of `0 .. n-1` |
| Training.EpochsIndices | main.c:215-236 | the index order of the run depends only on `n` and the shuffles, not on the network or the data |
| Training.EpochsPermutation | main.c:219-220 | after any number of epochs `indices` is a permutation of `0 .. n-1` |
| Training.EpochsCoverIndices | main.c:219-225 | after any number of epochs every sample index below `n` is visited, and no other |
| Training.Row | main.c:225 | a row of a 2-D table has the table's row width |
| Training.TrainSample | main.c:225-230 | returns the sample loss under the pre-update parameters and leaves the parameters one `Step` further |
| Training.TrainInOrder | main.c:221-231 | loops over the samples in `indices`; the parameters and the summed loss are those of `RunSamples` in that order |
| Training.RunEpoch | main.c:219-231 | shuffles `indices` into `Shuffled(old)`, keeps it a bijection, and the epoch's parameters and loss are `RunSamples` in the new order |
| Training.TrainingLoop | main.c:215-236 | the final parameters, indices and per-epoch MSE values are exactly `Epochs(…, 100)`; the data tables are unchanged |

## Left out

- File handling is not modelled: `fopen` failure (both functions return 0), `fclose`, and the file name. The file is its byte contents.
- `fwrite` is taken to write every byte. `fread` fills the buffer up to the end of the file, as glibc does for a short read. A partial element is kept, as glibc keeps it.
- All `int` and `float` words are taken to be little-endian.
- Words.DecodeWord: its own contract gives only the lowest byte. That it is the exact inverse of `EncodeWord` is stated by the two round-trip lemmas beside it, which keeps the arithmetic out of every proof that reads a word.
- `int` and `float` are taken to be 4 bytes, and `Stats` two floats with no padding. The 808-byte layout and every offset depend on this.
- The `dims` buffer in `load_model` is uninitialised. When the file ends inside the dimension triple, the check compares stale stack bytes, which is undefined behaviour in C. The model makes those bytes a parameter, so acceptance of a 4- to 15-byte file depends on it (`ModelFile.ShortHeaderUsesStaleDims`). This is why `ModelFile.LoadRejectsBadDims` and `ModelFile.DimsCheck` assume the full 16-byte header.
- The persisted floats are raw 32-bit patterns. Training uses `real`, so IEEE rounding, NaN and infinity are not modelled. The link between a float's bit pattern and its real value is not modelled either.
- LEARNING_RATE is the real 0.001 rather than the float nearest to it. The `1e-8f` guard is the real 1e-8.
- `epoch_loss` is a `double`, and it accumulates `float` squares in the code. Both are `real` in the model.
- NetworkSpec.ZScoreRoundTrip: the inverse is exact only up to the epsilon term, as the code computes; it is not an exact round trip.
- Training.FittedSampleLoss: only the direction "fitted ⇒ loss 0" is proved. The converse (loss 0 ⇒ fitted) holds over the reals but is not stated.
- Training.FittedEpochNoUpdate: only the fitted ⇒ zero loss and no change direction.
- Training.Mse: its contract states only non-negativity. The value itself is the definition.
- `rand()`, `srand(time(NULL))` and `rand_weight` are not modelled. The values `rand()` returns during shuffling are an input (`rolls`). `init_network` is replaced by constructing the network from given parameters.
- `load_csv` (CSV parsing with `sscanf`, the `MAX_DATA` truncation) and `calc_stats` (`pow`, `sqrt` in `double`) are not part of this model. The loop takes the normalised tables as given.
- The normalisation loop of `main` (main.c:210-213) is not modelled as a loop. `NetworkSpec.ZScore` is the per-value function.
- `SHUFFLE` is the constant 1, so the loop always shuffles.
- The command-line parsing, the `printf`/`fflush` output of the MSE, the `save_model` call at the end of `main`, and the interactive prediction mode are not modelled. Neither is the plotting script.
