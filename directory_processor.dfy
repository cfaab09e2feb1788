/**
 * The directory mode of `src/directory_processor.c`: the per-file dispatcher
 * (`procesar_archivo_individual`), the directory walk (`procesar_directorio`),
 * the output-directory decision (`crear_directorio_salida`) and the `stat`
 * test (`es_directorio`).
 *
 * The operating system is an abstract file store: a map from paths to file
 * contents, a set of directory paths, and a fixed set of paths where the
 * system refuses to create or write anything (permissions, missing parents).
 * A directory listing, as `readdir` would return it, is a parameter.
 *
 * Each operation has a pure specification over the store's values (`Transform`,
 * `FileStep`, `CreateDir`, `RunEntries`, `Directory`); the methods of
 * `FileStore` perform the same steps in place and are proved to match them.
 */
module DirectoryProcessor {
  import opened Common
  import Compression
  import Encryption
  import Args

  // ---------------------------------------------------------------------------
  // The dispatch rule of procesar_archivo_individual
  // ---------------------------------------------------------------------------

  /** The operation character and the three option values `main` passes on. */
  datatype Request = Request(op: char, compAlg: Option<string>, encAlg: Option<string>, key: Option<string>)

  predicate IsCompression(op: char) { op == 'c' || op == 'd' }
  predicate IsCipher(op: char) { op == 'e' || op == 'u' }

  /** The algorithm name the switch compares is present: `strcmp` on a NULL
      name is undefined behaviour in the C. */
  predicate NamesPresent(req: Request)
  {
    && (IsCompression(req.op) ==> req.compAlg.Some?)
    && (IsCipher(req.op) ==> req.encAlg.Some?)
  }

  /** The switch reaches a codec call. */
  predicate Selects(req: Request)
    requires NamesPresent(req)
  {
    || (IsCompression(req.op) && req.compAlg.value == "rle")
    || (IsCipher(req.op) && req.encAlg.value == "vigenere" && req.key.Some?)
  }

  /** The processed data, or `None` when the switch or the codec fails. */
  function Transform(req: Request, content: seq<Byte>): (r: Option<seq<Byte>>)
    requires NamesPresent(req)
    ensures r.Some? && IsCipher(req.op) ==> |r.value| == |content|
    ensures r.Some? && req.op == 'c' ==> 0 < |r.value| <= |content|
    ensures r.Some? && req.op == 'd' ==> 0 < |r.value| && 2 * |r.value| <= 9 * |content|
  {
    Compression.EncodeLength(content);
    Compression.DecodeLength(content);
    if req.op == 'c' then
      if req.compAlg.value != "rle" then None
      else if |content| == 0 then None
      else Some(Compression.Encode(content))
    else if req.op == 'd' then
      if req.compAlg.value != "rle" then None
      else if |content| == 0 then None
      else Some(Compression.Decode(content))
    else if req.op == 'e' then
      if req.encAlg.value != "vigenere" || req.key.None? then None
      else if !Encryption.ValidKey(req.key.value) then None
      else Some(Encryption.Encrypt(content, req.key.value))
    else if req.op == 'u' then
      if req.encAlg.value != "vigenere" || req.key.None? then None
      else if !Encryption.ValidKey(req.key.value) then None
      else Some(Encryption.Decrypt(content, req.key.value))
    else None
  }

  /** A codec runs only for 'c'/'d' with "rle" or 'e'/'u' with "vigenere" and a
      key, and then succeeds exactly when the codec accepts its input: non-empty
      data for RLE, a valid key for the cipher. */
  lemma DispatchAccepts(req: Request, content: seq<Byte>)
    requires NamesPresent(req)
    ensures Transform(req, content).Some?
        <==> && Selects(req)
             && (IsCompression(req.op) ==> |content| > 0)
             && (IsCipher(req.op) ==> Encryption.ValidKey(req.key.value))
    ensures !IsCompression(req.op) && !IsCipher(req.op) ==> Transform(req, content).None?
  {
  }

  /** An empty input file: the RLE directions fail, the cipher directions with
      a valid key succeed with empty output. */
  lemma EmptyFile(req: Request)
    requires NamesPresent(req)
    ensures IsCompression(req.op) ==> Transform(req, []).None?
    ensures IsCipher(req.op) && Selects(req) && Encryption.ValidKey(req.key.value)
        ==> Transform(req, []) == Some([])
  {
  }

  /** Encrypting then decrypting a file with the same key restores it, and the
      other way round. */
  lemma DispatchCipherRoundTrip(compAlg: Option<string>, key: string, x: seq<Byte>)
    ensures var enc := Request('e', compAlg, Some("vigenere"), Some(key));
            var dec := Request('u', compAlg, Some("vigenere"), Some(key));
      && (Transform(enc, x).Some? ==> Transform(dec, Transform(enc, x).value) == Some(x))
      && (Transform(dec, x).Some? ==> Transform(enc, Transform(dec, x).value) == Some(x))
  {
    if Encryption.ValidKey(key) {
      Encryption.RoundTrip(x, key);
    }
  }

  /** Compressing then decompressing a non-empty file restores it when no two
      adjacent bytes are equal and no byte is a digit '1'..'9'. */
  lemma DispatchCompressRoundTrip(encAlg: Option<string>, key: Option<string>, x: seq<Byte>)
    requires |x| > 0
    requires forall k :: 0 <= k < |x| - 1 ==> x[k] != x[k + 1]
    requires forall k :: 0 <= k < |x| ==> !Compression.IsCountDigit(x[k])
    ensures var c := Request('c', Some("rle"), encAlg, key);
            var d := Request('d', Some("rle"), encAlg, key);
      Transform(c, x).Some? && Transform(d, Transform(c, x).value) == Some(x)
  {
    Compression.EncodeLength(x);
    Compression.RoundTripWithoutRuns(x);
  }

  /** Compressing then decompressing "AA" gives 'A',0x02 back: the RLE count is
      a binary byte that the decoder does not read as a count. */
  lemma DispatchCompressMismatch(encAlg: Option<string>, key: Option<string>, x: seq<Byte>)
    requires x == [65, 65]
    ensures var c := Request('c', Some("rle"), encAlg, key);
            var d := Request('d', Some("rle"), encAlg, key);
      Transform(c, x) == Some([65, 2]) && Transform(d, [65, 2]) == Some([65, 2])
  {
    Compression.RoundTripCounterexample(x);
  }

  /** The operation `main` passes to `procesar_directorio`: the first of -c,
      -d, -e, -u that is set, and 'c' when none is. */
  function MainOperation(a: Args.Arguments): (op: char)
    ensures op == 'c' <==> a.compress || !(a.decompress || a.encrypt || a.decrypt)
    ensures op == 'd' <==> !a.compress && a.decompress
    ensures op == 'e' <==> !a.compress && !a.decompress && a.encrypt
    ensures op == 'u' <==> !a.compress && !a.decompress && !a.encrypt && a.decrypt
  {
    if a.compress then 'c'
    else if a.decompress then 'd'
    else if a.encrypt then 'e'
    else if a.decrypt then 'u'
    else 'c'
  }

  /** The request `main` builds from a successful parse in directory mode (the
      operation by the priority -c, -d, -e, -u) names one of the four
      operations and carries the algorithm name the dispatcher compares. */
  lemma ParsedRequestHasNames(argv: seq<string>, a: Args.Arguments)
    requires Args.Parse(argv) == Some(a)
    ensures var req := Request(MainOperation(a), a.compAlg, a.encAlg, a.key);
      && NamesPresent(req)
      && (IsCompression(req.op) || IsCipher(req.op))
  {
    var ts := Args.Tokenize(argv, 1).value;
    assert Args.Validate(Args.ApplyAll(Args.Initial, ts)) == Some(a);
  }

  // ---------------------------------------------------------------------------
  // The file store and the specification of each step
  // ---------------------------------------------------------------------------

  /** `es_directorio`: 1 for a directory, 0 for any other existing path, -1
      when `stat` fails. */
  function StatDirectory(files: map<string, seq<Byte>>, dirs: set<string>, path: string): (r: int)
    ensures r == 1 <==> path in dirs
    ensures r == 0 <==> path in files && path !in dirs
    ensures r == -1 <==> path !in files && path !in dirs
  {
    if path in dirs then 1 else if path in files then 0 else -1
  }

  /** `crear_directorio_salida`: the status and the directories afterwards. */
  datatype Created = Created(status: int, dirs: set<string>)

  function CreateDir(files: map<string, seq<Byte>>, dirs: set<string>, denied: set<string>, path: string): (c: Created)
    ensures c.status == 0 <==> path in dirs || (path !in files && path !in denied)
    ensures c.status == 0 ==> c.dirs == dirs + {path}
    ensures c.status != 0 ==> c.dirs == dirs && c.status == -1
  {
    if path in dirs then Created(0, dirs)
    else if path in files then Created(-1, dirs)
    else if path in denied then Created(-1, dirs)
    else Created(0, dirs + {path})
  }

  /** An existing output directory is reused unchanged, so a second call after
      a successful one changes nothing and succeeds again. */
  lemma CreateDirIdempotent(files: map<string, seq<Byte>>, dirs: set<string>, denied: set<string>, path: string)
    ensures path in dirs ==> CreateDir(files, dirs, denied, path) == Created(0, dirs)
    ensures var c := CreateDir(files, dirs, denied, path);
      c.status == 0 ==> CreateDir(files, c.dirs, denied, path) == c
  {
  }

  /** One file processed: whether it succeeded and the files afterwards. */
  datatype Step = Step(ok: bool, files: map<string, seq<Byte>>)

  /** `procesar_archivo_individual` on the store: read the input, transform
      it, and write the output only when the transform succeeded. */
  function FileStep(files: map<string, seq<Byte>>, dirs: set<string>, denied: set<string>,
                    inPath: string, outPath: string, req: Request): (st: Step)
    requires NamesPresent(req)
    ensures st.ok <==> && inPath in files && Transform(req, files[inPath]).Some?
                       && outPath !in dirs && outPath !in denied
    ensures st.ok ==> st.files == files[outPath := Transform(req, files[inPath]).value]
    ensures !st.ok ==> st.files == files
  {
    if inPath !in files then Step(false, files)
    else match Transform(req, files[inPath])
      case None => Step(false, files)
      case Some(out) =>
        if outPath in dirs || outPath in denied then Step(false, files)
        else Step(true, files[outPath := out])
  }

  /** One directory entry as `readdir` reports it. */
  datatype Entry = Entry(name: string, isRegular: bool)

  /** The entries the walk processes: regular files other than "." and "..". */
  predicate Selected(e: Entry)
  {
    e.name != "." && e.name != ".." && e.isRegular
  }

  /** The path `snprintf("%s/%s")` builds. */
  function Join(dir: string, name: string): string
  {
    dir + "/" + name
  }

  function CountSelected(entries: seq<Entry>): nat
  {
    if |entries| == 0 then 0
    else CountSelected(entries[..|entries| - 1]) + (if Selected(entries[|entries| - 1]) then 1 else 0)
  }

  /** The paths `dir/name` of the selected entries: with `outDir` the files
      the walk writes, with `inDir` the files it reads. */
  function Paths(dir: string, entries: seq<Entry>): set<string>
  {
    set e | e in entries && Selected(e) :: Join(dir, e.name)
  }

  /** No selected entry after position `k` has the name of entry `k`, so no
      later step writes its output path again. */
  predicate LastOf(entries: seq<Entry>, k: nat)
    requires k < |entries|
  {
    forall j :: k < j < |entries| && Selected(entries[j]) ==> entries[j].name != entries[k].name
  }

  /** The walk's state: the files and the two counters. */
  datatype Summary = Summary(files: map<string, seq<Byte>>, processed: nat, succeeded: nat)

  /** The `readdir` loop over `entries`, one `FileStep` per selected entry. A
      failing file is counted and the walk goes on. */
  function RunEntries(files: map<string, seq<Byte>>, dirs: set<string>, denied: set<string>,
                      inDir: string, outDir: string, req: Request, entries: seq<Entry>): (s: Summary)
    requires NamesPresent(req)
    ensures s.succeeded <= s.processed == CountSelected(entries)
    decreases |entries|
  {
    if |entries| == 0 then Summary(files, 0, 0)
    else
      var prev := RunEntries(files, dirs, denied, inDir, outDir, req, entries[..|entries| - 1]);
      var e := entries[|entries| - 1];
      if !Selected(e) then prev
      else
        var st := FileStep(prev.files, dirs, denied, Join(inDir, e.name), Join(outDir, e.name), req);
        Summary(st.files, prev.processed + 1, prev.succeeded + if st.ok then 1 else 0)
  }

  /** `procesar_directorio`: the status and the store afterwards. */
  datatype Outcome = Outcome(status: int, files: map<string, seq<Byte>>, dirs: set<string>)

  function Directory(files: map<string, seq<Byte>>, dirs: set<string>, denied: set<string>,
                     inDir: string, outDir: string, req: Request, entries: seq<Entry>): (o: Outcome)
    requires NamesPresent(req)
    ensures o.status == 0 || o.status == -1
    ensures o.status == 0 ==> (inDir in dirs || inDir == outDir) && inDir in o.dirs && outDir in o.dirs
  {
    if StatDirectory(files, dirs, inDir) == 0 then Outcome(-1, files, dirs)
    else
      var c := CreateDir(files, dirs, denied, outDir);
      if c.status != 0 then Outcome(-1, files, dirs)
      else if inDir !in c.dirs then Outcome(-1, files, c.dirs)
      else
        var s := RunEntries(files, c.dirs, denied, inDir, outDir, req, entries);
        Outcome(if s.succeeded == s.processed then 0 else -1, s.files, c.dirs)
  }

  // ---------------------------------------------------------------------------
  // The store, updated in place
  // ---------------------------------------------------------------------------

  class FileStore {
    var files: map<string, seq<Byte>>
    var dirs: set<string>
    /** Paths where the system refuses to create a file or a directory. */
    const denied: set<string>

    /** No path is both a file and a directory. */
    predicate Valid()
      reads this
    {
      files.Keys !! dirs
    }

    constructor(files0: map<string, seq<Byte>>, dirs0: set<string>, denied0: set<string>)
      requires files0.Keys !! dirs0
      ensures Valid()
      ensures files == files0 && dirs == dirs0 && denied == denied0
    {
      files := files0;
      dirs := dirs0;
      denied := denied0;
    }

    /** `leer_archivo`: the whole contents, or failure when the path is not a
        file (missing, or a directory). */
    method ReadFile(path: string) returns (r: Option<seq<Byte>>)
      ensures path in files <==> r.Some?
      ensures r.Some? ==> r.value == files[path]
    {
      if path in files {
        r := Some(files[path]);
      } else {
        r := None;
      }
    }

    /** `escribir_archivo`: create or truncate the file with `data`; fails on a
        directory or a refused path. */
    method WriteFile(path: string, data: seq<Byte>) returns (r: int)
      requires Valid()
      modifies this
      ensures Valid()
      ensures r == 0 <==> path !in dirs && path !in denied
      ensures r == 0 || r == -1
      ensures files == if r == 0 then old(files)[path := data] else old(files)
      ensures dirs == old(dirs)
    {
      if path in dirs || path in denied {
        return -1;
      }
      files := files[path := data];
      return 0;
    }

    /** `crear_directorio_salida`: reuse an existing directory, refuse an
        existing file, otherwise `mkdir`. */
    method CreateOutputDir(path: string) returns (r: int)
      requires Valid()
      modifies this
      ensures Valid()
      ensures files == old(files)
      ensures path in old(dirs) ==> r == 0 && dirs == old(dirs)
      ensures var c := CreateDir(old(files), old(dirs), denied, path);
        r == c.status && dirs == c.dirs
    {
      if path in dirs {
        return 0;
      }
      if path in files {
        return -1;
      }
      if path in denied {
        return -1;
      }
      dirs := dirs + {path};
      return 0;
    }

    /** `procesar_archivo_individual`: read, run the codec the switch selects,
        and write the result only when the codec succeeded. */
    method ProcessFile(inPath: string, outPath: string, req: Request) returns (r: int)
      requires Valid() && NamesPresent(req)
      modifies this
      ensures Valid()
      ensures dirs == old(dirs)
      ensures r == 0 || r == -1
      ensures var st := FileStep(old(files), old(dirs), denied, inPath, outPath, req);
        (r == 0 <==> st.ok) && files == st.files
    {
      var content := ReadFile(inPath);
      if content.None? {
        return -1;
      }
      var data := content.value;
      var out: Option<seq<Byte>> := None;
      if req.op == 'c' {
        if req.compAlg.value == "rle" {
          out := Compression.CompressRle(data);
        }
      } else if req.op == 'd' {
        if req.compAlg.value == "rle" {
          out := Compression.DecompressRle(data);
        }
      } else if req.op == 'e' {
        if req.encAlg.value == "vigenere" && req.key.Some? {
          out := Encryption.EncryptVigenere(data, req.key.value);
        }
      } else if req.op == 'u' {
        if req.encAlg.value == "vigenere" && req.key.Some? {
          out := Encryption.DecryptVigenere(data, req.key.value);
        }
      }
      assert out == Transform(req, data);
      if out.None? {
        return -1;
      }
      r := WriteFile(outPath, out.value);
    }

    /** `procesar_directorio`: check the input, create the output directory,
        then process every selected entry of the listing, counting processed
        and successful files; 0 exactly when every processed file succeeded. */
    method ProcessDirectory(inDir: string, outDir: string, req: Request, entries: seq<Entry>) returns (r: int)
      requires Valid() && NamesPresent(req)
      modifies this
      ensures Valid()
      ensures var o := Directory(old(files), old(dirs), denied, inDir, outDir, req, entries);
        r == o.status && files == o.files && dirs == o.dirs
    {
      if StatDirectory(files, dirs, inDir) == 0 {
        return -1;
      }
      var created := CreateOutputDir(outDir);
      if created != 0 {
        return -1;
      }
      if inDir !in dirs {
        // opendir fails
        return -1;
      }
      ghost var start := files;
      var processed := 0;
      var succeeded := 0;
      var k := 0;
      while k < |entries|
        invariant 0 <= k <= |entries|
        invariant Valid()
        invariant dirs == CreateDir(old(files), old(dirs), denied, outDir).dirs
        invariant RunEntries(start, dirs, denied, inDir, outDir, req, entries[..k])
               == Summary(files, processed, succeeded)
      {
        var e := entries[k];
        if e.name == "." || e.name == ".." {
          // skipped
        } else if e.isRegular {
          processed := processed + 1;
          var res := ProcessFile(Join(inDir, e.name), Join(outDir, e.name), req);
          if res == 0 {
            succeeded := succeeded + 1;
          }
        }
        assert entries[..k + 1][..k] == entries[..k];
        k := k + 1;
      }
      assert entries[..k] == entries;
      r := if succeeded == processed then 0 else -1;
    }
  }

  // ---------------------------------------------------------------------------
  // Properties of the walk
  // ---------------------------------------------------------------------------

  lemma PathsSnoc(dir: string, init: seq<Entry>, e: Entry)
    ensures Paths(dir, init + [e])
         == Paths(dir, init) + if Selected(e) then {Join(dir, e.name)} else {}
  {
    var all := init + [e];
    forall x | x in all
      ensures x in init || x == e
    {
    }
    assert e in all;
    forall x | x in init
      ensures x in all
    {
    }
  }

  /** The walk only ever adds or overwrites output paths: every other path
      keeps its contents, and no file disappears. */
  lemma {:induction false} RunEntriesFrame(files: map<string, seq<Byte>>, dirs: set<string>, denied: set<string>,
                                           inDir: string, outDir: string, req: Request, entries: seq<Entry>)
    requires NamesPresent(req)
    ensures var s := RunEntries(files, dirs, denied, inDir, outDir, req, entries);
      && files.Keys <= s.files.Keys
      && s.files.Keys <= files.Keys + Paths(outDir, entries)
      && forall p :: p in files && p !in Paths(outDir, entries) ==> s.files[p] == files[p]
    decreases |entries|
  {
    if |entries| > 0 {
      var init := entries[..|entries| - 1];
      var e := entries[|entries| - 1];
      assert entries == init + [e];
      RunEntriesFrame(files, dirs, denied, inDir, outDir, req, init);
      PathsSnoc(outDir, init, e);
    }
  }

  /** When every processed file succeeded, every output path exists. */
  lemma {:induction false} RunEntriesAllSucceeded(files: map<string, seq<Byte>>, dirs: set<string>, denied: set<string>,
                                                  inDir: string, outDir: string, req: Request, entries: seq<Entry>)
    requires NamesPresent(req)
    ensures var s := RunEntries(files, dirs, denied, inDir, outDir, req, entries);
      s.succeeded == s.processed ==> Paths(outDir, entries) <= s.files.Keys
    decreases |entries|
  {
    if |entries| > 0 {
      var init := entries[..|entries| - 1];
      var e := entries[|entries| - 1];
      assert entries == init + [e];
      RunEntriesAllSucceeded(files, dirs, denied, inDir, outDir, req, init);
      PathsSnoc(outDir, init, e);
    }
  }

  /** `dir/name` determines `name`. */
  lemma JoinInjective(dir: string, a: string, b: string)
    ensures Join(dir, a) == Join(dir, b) ==> a == b
  {
    if Join(dir, a) == Join(dir, b) {
      assert a == Join(dir, a)[|dir| + 1..];
      assert b == Join(dir, b)[|dir| + 1..];
    }
  }

  /** The walk pairs each input with the output of the same name: when no
      output path is also an input path and no later entry reuses the name,
      entry `k`'s output holds the transform of its input as it was before
      the walk, provided that file step succeeds on the initial store; when
      it fails, the walk does not report full success. */
  lemma {:induction false} RunEntriesOutput(files: map<string, seq<Byte>>, dirs: set<string>, denied: set<string>,
                                            inDir: string, outDir: string, req: Request, entries: seq<Entry>, k: nat)
    requires NamesPresent(req)
    requires k < |entries| && Selected(entries[k]) && LastOf(entries, k)
    requires Paths(outDir, entries) !! Paths(inDir, entries)
    ensures var n := entries[k].name;
      var st := FileStep(files, dirs, denied, Join(inDir, n), Join(outDir, n), req);
      var s := RunEntries(files, dirs, denied, inDir, outDir, req, entries);
      && (st.ok ==> Join(outDir, n) in s.files
                    && Transform(req, files[Join(inDir, n)]) == Some(s.files[Join(outDir, n)]))
      && (!st.ok ==> s.succeeded < s.processed)
    decreases |entries|
  {
    var n := entries[k].name;
    var init := entries[..|entries| - 1];
    var e := entries[|entries| - 1];
    assert entries == init + [e];
    PathsSnoc(outDir, init, e);
    if k == |entries| - 1 {
      PathsSnoc(inDir, init, e);
      OutputAtLast(files, dirs, denied, inDir, outDir, req, entries);
    } else {
      assert init[k] == entries[k];
      assert LastOf(init, k) by {
        forall j | k < j < |init| && Selected(init[j])
          ensures init[j].name != init[k].name
        {
          assert init[j] == entries[j];
        }
      }
      PathsSnoc(inDir, init, e);
      RunEntriesOutput(files, dirs, denied, inDir, outDir, req, init, k);
      OutputKept(files, dirs, denied, inDir, outDir, req, entries, n);
    }
  }

  /** The last entry's step reads its input as it was before the walk, when
      no earlier step wrote that path. */
  lemma OutputAtLast(files: map<string, seq<Byte>>, dirs: set<string>, denied: set<string>,
                     inDir: string, outDir: string, req: Request, entries: seq<Entry>)
    requires NamesPresent(req) && |entries| > 0
    requires var e := entries[|entries| - 1];
      Selected(e) && Join(inDir, e.name) !in Paths(outDir, entries[..|entries| - 1])
    ensures var n := entries[|entries| - 1].name;
      var st := FileStep(files, dirs, denied, Join(inDir, n), Join(outDir, n), req);
      var s := RunEntries(files, dirs, denied, inDir, outDir, req, entries);
      && (st.ok ==> Join(outDir, n) in s.files
                    && Transform(req, files[Join(inDir, n)]) == Some(s.files[Join(outDir, n)]))
      && (!st.ok ==> s.succeeded < s.processed)
  {
    RunEntriesFrame(files, dirs, denied, inDir, outDir, req, entries[..|entries| - 1]);
  }

  /** A last entry with another name leaves the output path `outDir/n` as it
      was, and a walk already short of full success stays so. */
  lemma OutputKept(files: map<string, seq<Byte>>, dirs: set<string>, denied: set<string>,
                   inDir: string, outDir: string, req: Request, entries: seq<Entry>, n: string)
    requires NamesPresent(req) && |entries| > 0
    requires var e := entries[|entries| - 1]; Selected(e) ==> e.name != n
    ensures var prev := RunEntries(files, dirs, denied, inDir, outDir, req, entries[..|entries| - 1]);
      var s := RunEntries(files, dirs, denied, inDir, outDir, req, entries);
      && (Join(outDir, n) in prev.files
          ==> Join(outDir, n) in s.files && s.files[Join(outDir, n)] == prev.files[Join(outDir, n)])
      && (prev.succeeded < prev.processed ==> s.succeeded < s.processed)
  {
    JoinInjective(outDir, entries[|entries| - 1].name, n);
  }

  /** A listing with no regular files processes nothing and succeeds. */
  lemma {:induction false} RunEntriesNothingSelected(files: map<string, seq<Byte>>, dirs: set<string>, denied: set<string>,
                                                     inDir: string, outDir: string, req: Request, entries: seq<Entry>)
    requires NamesPresent(req)
    requires forall e :: e in entries ==> !Selected(e)
    ensures RunEntries(files, dirs, denied, inDir, outDir, req, entries) == Summary(files, 0, 0)
    decreases |entries|
  {
    if |entries| > 0 {
      var init := entries[..|entries| - 1];
      assert entries[|entries| - 1] in entries;
      forall e | e in init
        ensures !Selected(e)
      {
        assert e in entries;
      }
      RunEntriesNothingSelected(files, dirs, denied, inDir, outDir, req, init);
    }
  }

  /** Directory mode fails before touching the store when the input is an
      existing non-directory, when the output is an existing non-directory,
      or when the output directory cannot be created. */
  lemma DirectoryRejectsEarly(files: map<string, seq<Byte>>, dirs: set<string>, denied: set<string>,
                              inDir: string, outDir: string, req: Request, entries: seq<Entry>)
    requires NamesPresent(req)
    requires || StatDirectory(files, dirs, inDir) == 0
             || StatDirectory(files, dirs, outDir) == 0
             || (StatDirectory(files, dirs, outDir) == -1 && outDir in denied)
    ensures Directory(files, dirs, denied, inDir, outDir, req, entries) == Outcome(-1, files, dirs)
  {
  }

  /** A missing input path passes the `!es_directorio` guard (its -1 is not
      0): the output directory is still created, then `opendir` fails. */
  lemma DirectoryMissingInput(files: map<string, seq<Byte>>, dirs: set<string>, denied: set<string>,
                              inDir: string, outDir: string, req: Request, entries: seq<Entry>)
    requires NamesPresent(req)
    requires StatDirectory(files, dirs, inDir) == -1 && inDir != outDir
    requires CreateDir(files, dirs, denied, outDir).status == 0
    ensures Directory(files, dirs, denied, inDir, outDir, req, entries) == Outcome(-1, files, dirs + {outDir})
  {
  }

  /** A directory whose listing holds no regular files succeeds and only
      creates the output directory. */
  lemma DirectoryWithoutFiles(files: map<string, seq<Byte>>, dirs: set<string>, denied: set<string>,
                              inDir: string, outDir: string, req: Request, entries: seq<Entry>)
    requires NamesPresent(req)
    requires inDir in dirs && CreateDir(files, dirs, denied, outDir).status == 0
    requires forall e :: e in entries ==> !Selected(e)
    ensures Directory(files, dirs, denied, inDir, outDir, req, entries) == Outcome(0, files, dirs + {outDir})
  {
    RunEntriesNothingSelected(files, dirs + {outDir}, denied, inDir, outDir, req, entries);
  }

  /** On success, entry `k`'s output holds the transform of its input, when
      outputs and inputs are distinct paths and no later entry reuses the
      name. */
  lemma DirectoryOutput(files: map<string, seq<Byte>>, dirs: set<string>, denied: set<string>,
                        inDir: string, outDir: string, req: Request, entries: seq<Entry>, k: nat)
    requires NamesPresent(req)
    requires k < |entries| && Selected(entries[k]) && LastOf(entries, k)
    requires Paths(outDir, entries) !! Paths(inDir, entries)
    ensures var n := entries[k].name;
      var o := Directory(files, dirs, denied, inDir, outDir, req, entries);
      o.status == 0 ==> && Join(inDir, n) in files && Join(outDir, n) in o.files
                        && Transform(req, files[Join(inDir, n)]) == Some(o.files[Join(outDir, n)])
  {
    var c := CreateDir(files, dirs, denied, outDir);
    RunEntriesOutput(files, c.dirs, denied, inDir, outDir, req, entries, k);
  }

  /** Whatever the status, the only files that change are the outputs of
      selected entries, and the only directory that may appear is the output
      directory. On success both directories exist, every output was
      written, and (when no output path is an input path) each output holds
      the transform of the input of the same name. */
  lemma DirectoryEffects(files: map<string, seq<Byte>>, dirs: set<string>, denied: set<string>,
                         inDir: string, outDir: string, req: Request, entries: seq<Entry>)
    requires NamesPresent(req)
    ensures var o := Directory(files, dirs, denied, inDir, outDir, req, entries);
      && dirs <= o.dirs <= dirs + {outDir}
      && files.Keys <= o.files.Keys <= files.Keys + Paths(outDir, entries)
      && (forall p :: p in files && p !in Paths(outDir, entries) ==> o.files[p] == files[p])
      && (o.status == 0 ==> inDir in o.dirs && outDir in o.dirs && Paths(outDir, entries) <= o.files.Keys)
      && (o.status == 0 && Paths(outDir, entries) !! Paths(inDir, entries) ==>
            forall k :: 0 <= k < |entries| && Selected(entries[k]) && LastOf(entries, k) ==>
              && Join(inDir, entries[k].name) in files && Join(outDir, entries[k].name) in o.files
              && Transform(req, files[Join(inDir, entries[k].name)]) == Some(o.files[Join(outDir, entries[k].name)]))
  {
    var c := CreateDir(files, dirs, denied, outDir);
    RunEntriesFrame(files, c.dirs, denied, inDir, outDir, req, entries);
    RunEntriesAllSucceeded(files, c.dirs, denied, inDir, outDir, req, entries);
    DirectoryOutputs(files, dirs, denied, inDir, outDir, req, entries);
  }

  /** `DirectoryOutput` for every entry at once. */
  lemma DirectoryOutputs(files: map<string, seq<Byte>>, dirs: set<string>, denied: set<string>,
                         inDir: string, outDir: string, req: Request, entries: seq<Entry>)
    requires NamesPresent(req)
    ensures var o := Directory(files, dirs, denied, inDir, outDir, req, entries);
      o.status == 0 && Paths(outDir, entries) !! Paths(inDir, entries) ==>
        forall k :: 0 <= k < |entries| && Selected(entries[k]) && LastOf(entries, k) ==>
          && Join(inDir, entries[k].name) in files && Join(outDir, entries[k].name) in o.files
          && Transform(req, files[Join(inDir, entries[k].name)]) == Some(o.files[Join(outDir, entries[k].name)])
  {
    var o := Directory(files, dirs, denied, inDir, outDir, req, entries);
    if o.status == 0 && Paths(outDir, entries) !! Paths(inDir, entries) {
      forall k | 0 <= k < |entries| && Selected(entries[k]) && LastOf(entries, k)
        ensures && Join(inDir, entries[k].name) in files && Join(outDir, entries[k].name) in o.files
                && Transform(req, files[Join(inDir, entries[k].name)]) == Some(o.files[Join(outDir, entries[k].name)])
      {
        DirectoryOutput(files, dirs, denied, inDir, outDir, req, entries, k);
      }
    }
  }
}
