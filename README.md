# GSEA file tool: a verified Dafny model of its core

GSEA is a command-line utility written in C that compresses, decompresses, encrypts and decrypts files. It works on one file or on every regular file of a directory. This project models four parts of it in Dafny and proves properties about the models:

- **`compression.dfy`, module `Compression`**: the run-length codec. It covers `comprimir_rle` and `descomprimir_rle` in `src/compression.c`.
  - The encoder splits its input into maximal runs. It writes a run of one byte as that byte alone. It writes a longer run as the byte followed by one raw byte holding the length modulo 256.
  - The decoder reads a following byte as a count only when it is an ASCII digit `'1'`..`'9'`.
  - Each C function is modelled as a `method` that fills a scratch `array` in place (`2n+1` bytes when encoding, `10n` when decoding). Each method is proved equal to a recursive specification (`Encode`, `Decode`).
  - The two directions are not inverse. The lemmas prove where the round trip holds and where it fails.
- **`encryption.dfy`, module `Encryption`**: the Vigenère-style cipher. It covers `encriptar_vigenere`, `desencriptar_vigenere` and `validar_clave` in `src/encryption.c`.
  - Only ASCII letters are shifted.
  - The key cursor advances only on letters.
  - The key is lower-cased before use.
  - The two C loops are one method, `CryptLoop`, which takes a direction. It is proved equal to the recursive `Crypt`.
- **`args.dfy`, module `Args`**: the command-line parser `parsear_argumentos` in `src/args.c`.
  - `argv` is a sequence of strings, and the NULL result is `None`.
  - The C `for` loop is the method `ParseArguments`. It is proved equal to `Parse`, which tokenizes the line, applies the field updates and checks the required fields.
- **`directory_processor.dfy`, module `DirectoryProcessor`**: directory mode from `src/directory_processor.c`.
  - `procesar_archivo_individual` is split into the pure dispatch rule `Transform` and a conditional write.
  - `procesar_directorio` walks a directory listing and counts processed and successful files.
  - `crear_directorio_salida` and `es_directorio` are also modelled.
  - The operating system is the class `FileStore`. It has a map from paths to contents, a set of directories, and a fixed set of paths where creating or writing is refused.
  - The listing `readdir` would produce is a parameter: a sequence of entries (name, regular-file flag).
  - `ReadFile` and `WriteFile` state their effect on the store directly. `CreateOutputDir`, `ProcessFile` and `ProcessDirectory` are proved equal to the pure specifications `CreateDir`, `FileStep` and `Directory` (through `RunEntries`), and the lemmas are proved about those specifications.

`common.dfy` (module `Common`) holds the shared byte type (`0..255`), `Option`, and `Repeat`.

Where the comments in the C and the code disagree, the model follows the code:

- The header comment of `src/compression.c` shows "AAAABBBCC" compressing to "A4B3C2" and calls the scheme lossless. The code writes the count as a raw byte (`(char)contador`), so the output is 'A',0x04,'B',0x03,'C',0x02. `Compression.EncodeExample` states this output. `Compression.RoundTripCounterexample` shows that "AA" does not survive compression followed by decompression.
- The program has no chained operation and no concurrency. The directory loop is sequential, and the model is too.

## Model

| member | source | states |
|---|---|---|
| Compression.RunLength | src/compression.c:43-49 | the counting loop's result: at least 1, every byte of the run equals the first, and the byte after the run differs, so the run is maximal |
| Compression.CountRun | src/compression.c:44-49 | the inner `while` loop returns exactly the length of the maximal run starting at `i` |
| Compression.WriteToken | src/compression.c:52-59 | appends the byte alone for a run of 1, the byte and the length modulo 256 otherwise; never more bytes than the run is long |
| Compression.Encode | src/compression.c:42-62 | the encoding is empty exactly for empty input and starts with the input's first byte; `ExpandRuns`, `RunsMaximal` and `RunsUnique` tie it to the unique partition into maximal runs |
| Compression.ScanRuns | src/compression.c:42-62 | the outer loop leaves exactly `Encode(data)` in the scratch buffer, at most `n` bytes, inside the `2n+1` buffer |
| Compression.CompressRle | src/compression.c:25-83 | empty input is rejected with no output; otherwise the result is `Encode(data)`, between 1 and `n` bytes long |
| Compression.ExpandRuns | src/compression.c:42-62 | the runs the encoder walks concatenate back to the input |
| Compression.RunsMaximal | src/compression.c:47-49 | every run is non-empty and adjacent runs hold different bytes |
| Compression.RunsUnique | src/compression.c:47-61 | any partition of the input into maximal runs is the one the encoder uses |
| Compression.EncodeLength | src/compression.c:52-59 | a non-empty input encodes to at least 1 and at most `n` bytes, well inside the `2n+1` buffer |
| Compression.EncodeLongRun | src/compression.c:55-59 | a run of `n >= 2` equal bytes encodes to the byte and `n mod 256`, a raw count and not an ASCII digit |
| Compression.EncodeExample | src/compression.c:14-17 | "AAAABBBCC" encodes to 'A',4,'B',3,'C',2 (raw counts), not the "A4B3C2" the comment shows |
| Compression.Decode | src/compression.c:108-131 | the decoding is empty exactly for empty input and starts with the input's first byte; `DecodeLength`, `DecodeIdentity` and the round-trip lemmas relate it to its input and to `Encode` |
| Compression.DecodeToken | src/compression.c:109-130 | one pass of the loop consumes one or two input bytes, writes at most 4.5 bytes per byte consumed, and keeps written output plus the decoding of the rest equal to what it was |
| Compression.WriteRepeated | src/compression.c:120-122 | the `for` loop appends exactly `count` copies of the byte |
| Compression.WriteByte | src/compression.c:123-130 | a byte without a count is appended once |
| Compression.ScanTokens | src/compression.c:108-131 | the decoding loop leaves exactly `Decode(data)` in the buffer and at most `4.5n` bytes, inside the `10n` buffer |
| Compression.DecompressRle | src/compression.c:91-152 | empty input is rejected with no output; otherwise the result is `Decode(data)`, at most `10n` bytes |
| Compression.DecodeLength | src/compression.c:99 | decoded output is at most 4.5 times the input, so the `10n` scratch buffer is never overrun |
| Compression.DecodeExample | src/compression.c:89 | "A4B3C2" decodes to "AAAABBBCC" |
| Compression.DecodeIdentity | src/compression.c:115-129 | input with no byte in '1'..'9' decodes to itself |
| Compression.EncodeNoRepeats | src/compression.c:52-54 | input with no two equal adjacent bytes encodes to itself |
| Compression.RoundTripWithoutRuns | src/compression.c:108-131 | decode(encode(x)) == x when x has no equal adjacent bytes and no digit '1'..'9' |
| Compression.RoundTripFailsOnShortRun | src/compression.c:58 | the round trip fails whenever the input starts with a run of 2 to 9 bytes (other than a run of the count byte itself) |
| Compression.RoundTripCounterexample | src/compression.c:115 | "AA" encodes to 'A',0x02, which decodes to 'A',0x02 |
| Encryption.ValidateKey | src/encryption.c:164-177 | accepts exactly the non-empty keys made only of letters |
| Encryption.KeyShift | src/encryption.c:55-59 | the shift taken from `key[cursor mod len]`, lower-cased, lies in 0..25 |
| Encryption.Offset | src/encryption.c:62 | the value before `% 26` lies in 0..51 in both directions (also line 135), so C's truncating `%` equals the mathematical modulo |
| Encryption.ShiftLetter | src/encryption.c:51-62 | a letter stays a letter of the same case |
| Encryption.ShiftInverse | src/encryption.c:135 | shifting back undoes shifting forward, and the other way round |
| Encryption.Crypt | src/encryption.c:44-73 | the output has the input's length |
| Encryption.CryptLoop | src/encryption.c:45-71 | the `for` loop over the buffer, writing in place and advancing the key cursor on letters, produces `Crypt(data, key, 0, dir)` |
| Encryption.EncryptVigenere | src/encryption.c:20-81 | fails, with no output, exactly when the key is invalid; otherwise returns `Encrypt(data, key)`, of the same length |
| Encryption.DecryptVigenere | src/encryption.c:93-154 | fails, with no output, exactly when the key is invalid; otherwise returns `Decrypt(data, key)`, of the same length |
| Encryption.CryptAt | src/encryption.c:49-71 | byte `i` of the output is `s[i]` for a non-letter, otherwise `s[i]` shifted by the key letter at the number of letters before `i` |
| Encryption.EncryptLetter | src/encryption.c:49-67 | the j-th letter is shifted by key letter `j mod len` and keeps its case |
| Encryption.NonLetterPassthrough | src/encryption.c:68-71 | non-letters are copied unchanged |
| Encryption.NoLettersUnchanged | src/encryption.c:141-144 | data with no letters is unchanged in either direction |
| Encryption.CryptRoundTrip | src/encryption.c:118-145 | decryption inverts encryption and encryption inverts decryption from any key cursor |
| Encryption.RoundTrip | src/encryption.c:93-154 | decrypt(encrypt(x, k), k) == x and encrypt(decrypt(x, k), k) == x for every valid key |
| Encryption.KeyCaseInsensitive | src/encryption.c:56 | keys that differ only in letter case give the same output |
| Args.Validate | src/args.c:118-147 | a record passes exactly when it is complete: an operation flag, input, output, and the algorithm of each requested kind of operation; it passes unchanged |
| Args.Parse | src/args.c:22-150 | NULL when `argc < 2`; every record it returns is complete |
| Args.ParseArguments | src/args.c:22-150 | the parsing loop returns `Parse(argv)`: NULL for `argc < 2`; on success at least one operation flag is set, input and output are present, and the algorithm of every requested kind of operation is present |
| Args.TokenizeSerialized | src/args.c:47-104 | well-formed options at the head of the line are consumed one by one, whatever follows them |
| Args.TokenizeSpells | src/args.c:47-115 | a line that scans to the end is exactly a sequence of the nine options -c -d -e -u --comp-alg --enc-alg -i -o -k, each value option followed by its value (a help word stops the scan) |
| Args.SerializeRoundTrip | src/args.c:60-104 | the word after a value option is taken verbatim, even when it looks like an option |
| Args.HelpRejects | src/args.c:105-109 | reaching -h or --help gives NULL |
| Args.UnknownRejects | src/args.c:110-114 | any other unknown word gives NULL |
| Args.MissingValueRejects | src/args.c:61-67 | a value option as the last word gives NULL |
| Args.LastOccurrenceWins | src/args.c:60-104 | a repeated value option keeps its last value; an absent one keeps its initial value |
| Args.FlagsIndependent | src/args.c:48-59 | each operation flag is set exactly when its word occurs, independently of the others |
| Args.ValuesUnchecked | src/args.c:137-149 | for `gsea -c -e --comp-alg c --enc-alg e -k k -i -c -o -o`, any algorithm names and key are kept verbatim, "-c" after -i is the input path, and -c together with -e is accepted |
| DirectoryProcessor.MainOperation | src/main.c:44-48 | the operation is 'c' when -c is set or no flag is, otherwise the first of -d, -e, -u that is set |
| DirectoryProcessor.ParsedRequestHasNames | src/main.c:44-52 | the operation `main` chooses (c, then d, then e, then u) from a successful parse is one of the four, and its algorithm name is present |
| DirectoryProcessor.Transform | src/directory_processor.c:138-189 | on success the cipher keeps the length, compression gives between 1 and `n` bytes and decompression at most 4.5 bytes per input byte; `DispatchAccepts` says when it succeeds |
| DirectoryProcessor.DispatchAccepts | src/directory_processor.c:138-189 | a codec runs only for 'c'/'d' with "rle" or 'e'/'u' with "vigenere" and a key; every other operation fails |
| DirectoryProcessor.EmptyFile | src/directory_processor.c:138-194 | an empty file fails for 'c' and 'd'; for 'e' and 'u' with a valid key it gives empty output |
| DirectoryProcessor.DispatchCipherRoundTrip | src/directory_processor.c:157-183 | 'u' undoes 'e' and 'e' undoes 'u' under the same key |
| DirectoryProcessor.DispatchCompressRoundTrip | src/directory_processor.c:139-155 | 'd' undoes 'c' on files with no equal adjacent bytes and no digit '1'..'9' |
| DirectoryProcessor.DispatchCompressMismatch | src/directory_processor.c:139-155 | 'c' then 'd' turns "AA" into 'A',0x02 |
| DirectoryProcessor.StatDirectory | src/directory_processor.c:288-299 | 1 exactly for a directory, 0 exactly for another existing path, -1 exactly for a missing one |
| DirectoryProcessor.CreateDir | src/directory_processor.c:259-283 | succeeds exactly for an existing directory or a creatable missing path; on success the directory exists; on failure nothing changes |
| DirectoryProcessor.CreateDirIdempotent | src/directory_processor.c:266-268 | an existing directory is reused unchanged, so a second call changes nothing |
| DirectoryProcessor.FileStep | src/directory_processor.c:122-207 | succeeds exactly when the input is readable, the transform succeeds and the output is writable; only then is the output path set to the transform's result; otherwise nothing changes |
| DirectoryProcessor.RunEntries | src/directory_processor.c:77-105 | every selected entry is counted, failing or not, and successes never exceed it |
| DirectoryProcessor.RunEntriesFrame | src/directory_processor.c:88-98 | the walk only adds or overwrites `outDir + "/" + name` for selected entries; nothing else changes and nothing is removed |
| DirectoryProcessor.RunEntriesAllSucceeded | src/directory_processor.c:97-113 | when successes equal processed files, every output path exists |
| DirectoryProcessor.RunEntriesOutput | src/directory_processor.c:88-98 | input and output are paired by the same entry name: when no output path is an input path and no later entry reuses the name, entry `k`'s output holds the transform of its original input if that file step succeeds, and the walk does not fully succeed if it fails |
| DirectoryProcessor.RunEntriesNothingSelected | src/directory_processor.c:79-85 | ".", ".." and non-regular entries are skipped: such a listing processes nothing |
| DirectoryProcessor.Directory | src/directory_processor.c:40-114 | the status is 0 or -1; on 0 both directories exist and the input was an existing directory or the output path itself |
| DirectoryProcessor.DirectoryRejectsEarly | src/directory_processor.c:49-58 | an input that is not a directory, an output that exists as a file, or an output that cannot be created gives -1 with the store unchanged |
| DirectoryProcessor.DirectoryMissingInput | src/directory_processor.c:49-66 | a missing input passes the `!es_directorio` guard (-1 is not 0): the output directory is created, then `opendir` fails and the result is -1 |
| DirectoryProcessor.DirectoryWithoutFiles | src/directory_processor.c:73-113 | a directory with no regular files succeeds and only creates the output directory |
| DirectoryProcessor.DirectoryOutput | src/directory_processor.c:88-113 | on status 0, entry `k`'s input existed and its output holds the transform of it (outputs distinct from inputs, no later entry with the same name) |
| DirectoryProcessor.DirectoryOutputs | src/directory_processor.c:88-113 | the same for every selected entry at once |
| DirectoryProcessor.DirectoryEffects | src/directory_processor.c:40-114 | only output paths and the output directory ever change; on success both directories exist, every output was written, and each output holds the transform of the input of the same name when no output path is an input path |
| DirectoryProcessor.FileStore.ReadFile | src/file_manager.c:13-78 | reading succeeds exactly for a file and returns its whole contents, empty for an empty file |
| DirectoryProcessor.FileStore.WriteFile | src/file_manager.c:83-117 | creates or truncates the file with exactly the data; fails on a directory or a refused path and then changes nothing |
| DirectoryProcessor.FileStore.CreateOutputDir | src/directory_processor.c:259-283 | the in-place decision matches `CreateDir`; an existing directory gives 0 and no change |
| DirectoryProcessor.FileStore.ProcessFile | src/directory_processor.c:122-207 | reading, dispatching and the conditional write leave the store as `FileStep` says and return 0 or -1 accordingly |
| DirectoryProcessor.FileStore.ProcessDirectory | src/directory_processor.c:40-114 | the guards and the counting loop leave the store and the status as `Directory` says: 0 exactly when every processed file succeeded |

## Left out

- Diagnostics: `printf` and `fprintf` output, including the floating-point reduction percentage of the encoder (src/compression.c:78-80).
- Memory management: `malloc` failures (each would return -1), `free`, and the `liberar_*` functions. `mi_strdup` and `mi_strdup_dir` are left out too; copying a string is the identity on values.
- NULL pointer arguments: every path, buffer and key is a value. The one NULL that matters is an absent algorithm name reaching `strcmp`, which is undefined behaviour. `Transform` requires the name to be present. `ParsedRequestHasNames` proves that every request `main` builds from a successful parse meets that requirement.
- The system calls behind the store (`open`, `read`, `write`, `fsync`, `stat`, `mkdir`). Read and write are whole-file map operations. Partial reads and writes are not modelled. A write or `mkdir` fails only on a directory path or on a path in the refused set, which stands for permissions and missing parent directories.
- The directory listing is a parameter and is not derived from the store. In particular it does not reflect files that the walk itself creates, which matters when the output directory is the input directory. The fixed `PATH_MAX` buffers truncate long paths in `snprintf`; paths here are plain concatenation.
- `listar_archivos_directorio`: the directory walk does not use it.
- `mostrar_ayuda` (help text).
- The unused `operacion_combinada` field of the argument record.
- The single-file branch of `main`, which repeats the dispatch of `procesar_archivo_individual`. Only its choice of operation in directory mode is modelled, as `DirectoryProcessor.MainOperation`.
- The following C details are not modelled:
  - locale-dependent `isalpha`/`isupper`/`tolower`; letters are ASCII A-Z and a-z only;
  - bytes 0x80..0xFF reaching `isalpha` through a signed `char`, which is undefined behaviour;
  - keys containing NUL; a C string ends at its first NUL;
  - the widths of `size_t` and `int` counters; counts here are unbounded (the RLE count byte is reduced modulo 256 explicitly, as the cast does).
- DirectoryProcessor.RunEntriesOutput, DirectoryProcessor.DirectoryOutput and the content clause of DirectoryProcessor.DirectoryEffects state what an output holds only when no output path is also an input path and no later entry has the same name. Otherwise a step can read a file an earlier step wrote, or a later step can overwrite an output. `RunEntries` still models those cases in the C order.
- `CryptLoop` covers both cipher loops, with a direction parameter, because they differ only in the shift formula.
