# ZX0 driver: a verified model

ZX0 is a compressor that finds a bit-optimal encoding for its format, unless the option `-<N>` asks for a quicker, non-optimal search. The file `src/zx0.c` is its command-line driver. This model covers the driver's own logic. The compressor is a separate component that the driver calls, and it is not part of this model:

- `reverse` reverses a byte buffer in place between two inclusive bounds. Backwards mode calls it on the whole input before compression and on the whole output afterwards.
- `match_extension` tests whether a file name, longer than its extension, ends in `.zx0`, or in `.zxx` for the extended format.
- In `main`, the loop over the hidden options sets three flags (`-f`, `-x`, `-b`). An option whose number is positive sets `skip` to it, and an option -N with N in [1, 15] sets `shrink_factor` to N. Any other option is an error.
- Also in `main`: the output name is derived, and then the input size is checked against 0 and against `skip`.

Each `exit(1)` on the modelled paths (src/zx0.c:83, 101, 116, 122) becomes a `Failure` value of type `Driver.Error`. The other `exit(1)` calls follow I/O failures, the existing-output check (src/zx0.c:148-150) or a `malloc` failure, none of which is modelled. The argument vector is modelled without the program name, so `args[j]` is `argv[j + 1]`. The C library call `atoi` is a parameter, `atoi: string -> int`. The input file's size is a parameter too: in the source it comes from `fseek`/`ftell`. The compressor `compress(optimize(...))` is a parameter `compress: seq<bv8> -> seq<bv8>`.

Files:

- `results.dfy`: the `Option` and `Result` datatypes.
- `reverse.dfy` (module `Reverse`): the reference function `Reversed`, the range reversal `ReverseRange` and its lemmas, and the in-place method `Reverse`.
- `extension.dfy` (module `Extension`): `MatchExtension` and what it accepts.
- `driver.dfy` (module `Driver`): the option loop as a method (`ProcessOptions`) and as the function it is proved against (`ScanOptions`), plus an independent description of the loop's result (`LastSetting`, `AllAccepted`, `FirstInvalid`) with lemmas in both directions. It also holds the output name, the size checks and the backwards pipeline.

`Reverse` works in place on an `array<bv8>`, as `reverse` does. The range checks on `skip` and `shrink_factor` are made in `main` (src/zx0.c:76-84, 120), and the model makes them there too.

## Model

| member | source | states |
|---|---|---|
| `Reverse.Reverse` | src/zx0.c:32-40 | The array afterwards is `ReverseRange` of the array before. Every k in [first, last] holds the old byte at first + last - k, and every byte outside the range is unchanged. When first >= last, nothing changes. Bounds are needed only when first < last, because only then does the loop touch the buffer. |
| `Reverse.ReverseRange` | src/zx0.c:35-39 | The effect of `reverse(first, last)` on a buffer keeps the buffer's length. |
| `Reverse.ReverseRangeInside` | src/zx0.c:35-39 | Position k in [first, last] receives the element from position first + last - k. |
| `Reverse.ReverseRangeOutside` | src/zx0.c:35-39 | Positions outside [first, last] keep their elements. |
| `Reverse.ReverseRangeUnique` | src/zx0.c:35-39 | A buffer that meets the pointwise description (inside and outside the range) is exactly `ReverseRange`. |
| `Reverse.ReverseRangeInvolution` | src/zx0.c:32-40 | Reversing the same range twice restores the buffer. |
| `Reverse.ReverseRangePermutation` | src/zx0.c:32-40 | Reversing a range is a permutation: the multiset of bytes is unchanged. |
| `Reverse.ReverseWhole` | src/zx0.c:164-173 | `reverse(data, data + size - 1)` reverses the whole buffer, including the empty buffer (last = -1) and the one-byte buffer. |
| `Reverse.ReversedInvolution` | src/zx0.c:164-173 | Whole-buffer reversal is its own inverse: the fact that backwards mode depends on. |
| `Extension.Ext` | src/zx0.c:92 | The extension chosen by `extended_mode ? ".zxx" : ".zx0"` is four characters long. |
| `Extension.MatchExtension` | src/zx0.c:42-45 | The definition: the name is longer than four characters and its last four characters are the format's extension. |
| `Extension.MatchExtensionByStem` | src/zx0.c:42-45 | A name matches exactly when it is some non-empty stem followed by the format's extension, in both directions. |
| `Extension.MatchedNameSplits` | src/zx0.c:42-45 | A matching name is a non-empty stem followed by the format's extension. |
| `Extension.AppendedNameMatches` | src/zx0.c:42-45 | Any non-empty stem followed by the format's extension matches. |
| `Extension.BareExtensionDoesNotMatch` | src/zx0.c:43-44 | The extension alone (".zx0", ".zxx") does not match, because the length test is strict. |
| `Extension.ExtensionsExclusive` | src/zx0.c:44 | No name matches both formats. |
| `Extension.DerivedNameMatchesOnlyItsFormat` | src/zx0.c:90-92 | A name built by appending one format's extension never matches the other format. If the stem is non-empty, it matches its own format. |
| `Driver.Defaults` | src/zx0.c:48-52 | The initial values give skip 0, shrink factor 0 and all flags off, and they are valid options. |
| `Driver.ApplyOption` | src/zx0.c:69-85 | An option succeeds exactly when it is `-f`, `-x`, `-b`, a positive number or a number in [-15, -1]. Otherwise the error names the option. A successful option keeps skip >= 0 and shrink factor in [0, 15]. |
| `Driver.IsOption` | src/zx0.c:68 | The loop guard: the argument's first character is '-' or '+'. An empty argument is not an option. |
| `Driver.ScanOptions` | src/zx0.c:68-86 | The loop from index i, as a function. On success, the first positional index lies between i and the argument count. A failure is always an `InvalidParameter` error. |
| `Driver.ProcessOptions` | src/zx0.c:68-86 | The loop returns exactly what `ScanOptions` describes, starting from the defaults at index 0. |
| `Driver.ScanSuccess` | src/zx0.c:68-86 | A successful scan stops at the first non-option argument, and every earlier option was accepted. A flag is set exactly when it occurs among the options. `skip` and `shrink_factor` hold the value of the last option that sets them, or their previous value if no option does. |
| `Driver.ScanReachesPositional` | src/zx0.c:68 | If every option before a non-option argument (or before the end) is accepted, the scan succeeds and stops there. |
| `Driver.ScanFailure` | src/zx0.c:76-84 | A failed scan reports `InvalidParameter` for the first rejected option, which sits after a run of accepted options. |
| `Driver.ScanStopsAtInvalid` | src/zx0.c:76-84 | The first rejected option always stops the scan with its error. |
| `Driver.ScanKeepsValid` | src/zx0.c:76-84 | Starting from valid values, a successful scan ends with skip >= 0 and shrink factor in [0, 15]. |
| `Driver.LastSettingRange` | src/zx0.c:77-80 | A skip set by an option is positive, and a shrink factor set by an option is in [1, 15]. |
| `Driver.ParseCommandLine` | src/zx0.c:88-102 | An accepted command line always has valid options. |
| `Driver.OutputNameByPositionalCount` | src/zx0.c:68-102 | Stated over the argument list: let n be the first non-option index (or the end), with every option before it accepted. One positional argument gives input `args[n]` and output `args[n]` plus ".zxx" if `-x` occurs before n, ".zx0" otherwise. Two give input `args[n]` and output `args[n + 1]`. Any other count is a `Usage` error. |
| `Driver.DerivedOutputNeverWarns` | src/zx0.c:160-162 | With a single positional argument, the command line is accepted and the extension warning cannot fire. |
| `Driver.Warns` | src/zx0.c:161 | The warning fires when the output name matches the extension of the format not in use. |
| `Driver.CheckInputSize` | src/zx0.c:114-123 | Success passes the job through unchanged, with a non-zero size and skip < size. Failure is `EmptyInput` or `SkipsEntireInput`. |
| `Driver.Prepare` | src/zx0.c:88-123 | Command-line errors come first and are reported as they are. A successful run keeps the job that the command line produced. |
| `Driver.ReachesCompression` | src/zx0.c:114-123 | Every accepted run has 0 <= skip < input size and shrink factor in [0, 15]. |
| `Driver.SizeChecks` | src/zx0.c:114-123 | Once the command line is accepted: an empty input, and only that, gives `EmptyInput`. A skip >= size on a non-empty input, and only that, gives `SkipsEntireInput`. Otherwise the job proceeds unchanged. |
| `Driver.CompressFile` | src/zx0.c:164-173 | In backwards mode, the input is left reversed, and the output is the reversal of what the compressor returns for the reversed input. Otherwise the input is untouched and the output is the compressor's output. |
| `Driver.BackwardsRoundTrip` | src/zx0.c:164-173 | If a decompressor inverts the compressor, reversing the stored file, decompressing it and reversing again gives back the original input. |

## Left out

- File I/O is not modelled: opening, sizing and reading the input (`fopen`, `fseek`/`ftell`, the `fread` loop and its short-read error), creating and writing the output, and `fclose`. The input size is a parameter.
- The existing-output check (src/zx0.c:148) is file-system I/O, so it is not modelled. The `-f` flag that controls it is still parsed and kept in `Options.forced`.
- Messages from `printf`/`fprintf` are not modelled, including the extension warning. The condition for that warning is modelled as `Driver.Warns`.
- `malloc` and the out-of-memory exit are not modelled.
- `optimize()` and `compress()` (src/zx0.c:169): their source (match finder, optimal parser, bit writer, delta computation) is not part of this model. `CompressFile` takes the compressor as a function parameter and does not model `delta` or the options passed to it.
- BackwardsRoundTrip: its hypothesis is a compressor whose output decodes to its whole input, which is the skip = 0 case. With skip > 0 the payload decodes only to the input after its first `skip` bytes, and the driver writes no prefix. The options that src/zx0.c:169 passes to the compressor are not parameters of `compress`.
- `atoi` is not modelled: its result for each option is given by the parameter `atoi`. Its overflow behaviour is therefore outside the model.
- Integer widths are not modelled: option values and the input size are unbounded integers. A negative size, as from a failing `ftell`, is rejected with `SkipsEntireInput`, as in the code.
- `argv[0]` is not modelled: it appears only in the usage message.
