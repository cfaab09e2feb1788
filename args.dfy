/**
 * The command-line parser of `src/args.c` (`parsear_argumentos`).
 *
 * `argv` is a sequence of words whose first element is the program name. The
 * parser scans the rest left to right, sets operation flags, stores option
 * values (the word after a value option, taken verbatim), and finally checks
 * the required fields. `None` stands for the NULL the C returns.
 *
 * The specification below splits the scan into a tokenizer (`Tokenize`), the
 * field updates (`ApplyAll`) and the final checks (`Validate`); the method
 * `ParseArguments` is the C loop itself, proved equal to it.
 */
module Args {
  import opened Common

  /** The fields of the `Argumentos` record that the parser sets. */
  datatype Arguments = Arguments(
    compress: bool,          // -c
    decompress: bool,        // -d
    encrypt: bool,           // -e
    decrypt: bool,           // -u
    compAlg: Option<string>, // --comp-alg
    encAlg: Option<string>,  // --enc-alg
    input: Option<string>,   // -i
    output: Option<string>,  // -o
    key: Option<string>      // -k
  )

  /** The record as initialised before the scan: no flag, no value. */
  const Initial := Arguments(false, false, false, false, None, None, None, None, None)

  /** The four operation flags. */
  datatype Flag = Compress | Decompress | Encrypt | Decrypt

  /** The five options that take a value. */
  datatype ValueOption = CompAlg | EncAlg | Input | Output | Key

  /** One recognised unit of the command line. */
  datatype Token = FlagToken(flag: Flag) | ValueToken(option: ValueOption, value: string)

  function FlagWord(f: Flag): string
  {
    match f
    case Compress => "-c"
    case Decompress => "-d"
    case Encrypt => "-e"
    case Decrypt => "-u"
  }

  function OptionWord(o: ValueOption): string
  {
    match o
    case CompAlg => "--comp-alg"
    case EncAlg => "--enc-alg"
    case Input => "-i"
    case Output => "-o"
    case Key => "-k"
  }

  function FlagOf(w: string): (r: Option<Flag>)
    ensures r.Some? ==> FlagWord(r.value) == w
  {
    if w == "-c" then Some(Compress)
    else if w == "-d" then Some(Decompress)
    else if w == "-e" then Some(Encrypt)
    else if w == "-u" then Some(Decrypt)
    else None
  }

  function OptionOf(w: string): (r: Option<ValueOption>)
    ensures r.Some? ==> OptionWord(r.value) == w
  {
    if w == "--comp-alg" then Some(CompAlg)
    else if w == "--enc-alg" then Some(EncAlg)
    else if w == "-i" then Some(Input)
    else if w == "-o" then Some(Output)
    else if w == "-k" then Some(Key)
    else None
  }

  predicate IsHelp(w: string)
  {
    w == "-h" || w == "--help"
  }

  /** The tokens of `argv[i..]`, or `None` when the scan stops with NULL: a
      help word, an unknown word, or a value option with nothing after it. */
  function Tokenize(argv: seq<string>, i: nat): Option<seq<Token>>
    decreases |argv| - i
  {
    if i >= |argv| then Some([])
    else
      var w := argv[i];
      if FlagOf(w).Some? then
        match Tokenize(argv, i + 1)
        case None => None
        case Some(ts) => Some([FlagToken(FlagOf(w).value)] + ts)
      else if OptionOf(w).Some? then
        if i + 1 < |argv| then
          match Tokenize(argv, i + 2)
          case None => None
          case Some(ts) => Some([ValueToken(OptionOf(w).value, argv[i + 1])] + ts)
        else None
      else None
  }

  /** The field update one token makes. */
  function Apply(a: Arguments, t: Token): Arguments
  {
    match t
    case FlagToken(Compress) => a.(compress := true)
    case FlagToken(Decompress) => a.(decompress := true)
    case FlagToken(Encrypt) => a.(encrypt := true)
    case FlagToken(Decrypt) => a.(decrypt := true)
    case ValueToken(CompAlg, v) => a.(compAlg := Some(v))
    case ValueToken(EncAlg, v) => a.(encAlg := Some(v))
    case ValueToken(Input, v) => a.(input := Some(v))
    case ValueToken(Output, v) => a.(output := Some(v))
    case ValueToken(Key, v) => a.(key := Some(v))
  }

  /** The field updates of a token sequence, left to right. */
  function ApplyAll(a: Arguments, ts: seq<Token>): Arguments
    decreases |ts|
  {
    if |ts| == 0 then a else ApplyAll(Apply(a, ts[0]), ts[1..])
  }

  /** A record that passes the checks after the scan. */
  predicate Complete(a: Arguments)
  {
    && (a.compress || a.decompress || a.encrypt || a.decrypt)
    && a.input.Some? && a.output.Some?
    && ((a.compress || a.decompress) ==> a.compAlg.Some?)
    && ((a.encrypt || a.decrypt) ==> a.encAlg.Some?)
  }

  /** The checks after the scan: an operation, an input, an output, and the
      algorithm option of every requested kind of operation. */
  function Validate(a: Arguments): (r: Option<Arguments>)
    ensures r.Some? <==> Complete(a)
    ensures r.Some? ==> r.value == a
  {
    if !(a.compress || a.decompress || a.encrypt || a.decrypt) then None
    else if a.input.None? then None
    else if a.output.None? then None
    else if (a.compress || a.decompress) && a.compAlg.None? then None
    else if (a.encrypt || a.decrypt) && a.encAlg.None? then None
    else Some(a)
  }

  /** What `parsear_argumentos` returns for `argv`. */
  function Parse(argv: seq<string>): (r: Option<Arguments>)
    ensures |argv| < 2 ==> r.None?
    ensures r.Some? ==> Complete(r.value)
  {
    if |argv| < 2 then None
    else match Tokenize(argv, 1)
      case None => None
      case Some(ts) => Validate(ApplyAll(Initial, ts))
  }

  /** What the rest of the scan yields from word `i` with the record `a`. */
  function Continue(argv: seq<string>, i: nat, a: Arguments): Option<Arguments>
  {
    match Tokenize(argv, i)
    case None => None
    case Some(ts) => Validate(ApplyAll(a, ts))
  }

  /**
   * `parsear_argumentos`: the `for` loop over `argv` with index `i`, bumped
   * once more when a value is consumed, followed by the required-field checks.
   */
  method ParseArguments(argv: seq<string>) returns (r: Option<Arguments>)
    ensures r == Parse(argv)
    ensures |argv| < 2 ==> r == None
    ensures r.Some? ==> Complete(r.value)
  {
    if |argv| < 2 {
      return None;
    }
    var args := Initial;
    var i := 1;
    while i < |argv|
      invariant 1 <= i <= |argv|
      invariant Continue(argv, i, args) == Parse(argv)
      decreases |argv| - i
    {
      var w := argv[i];
      if w == "-c" {
        args := args.(compress := true);
      } else if w == "-d" {
        args := args.(decompress := true);
      } else if w == "-e" {
        args := args.(encrypt := true);
      } else if w == "-u" {
        args := args.(decrypt := true);
      } else if w == "--comp-alg" {
        if i + 1 < |argv| {
          i := i + 1;
          args := args.(compAlg := Some(argv[i]));
        } else {
          return None;
        }
      } else if w == "--enc-alg" {
        if i + 1 < |argv| {
          i := i + 1;
          args := args.(encAlg := Some(argv[i]));
        } else {
          return None;
        }
      } else if w == "-i" {
        if i + 1 < |argv| {
          i := i + 1;
          args := args.(input := Some(argv[i]));
        } else {
          return None;
        }
      } else if w == "-o" {
        if i + 1 < |argv| {
          i := i + 1;
          args := args.(output := Some(argv[i]));
        } else {
          return None;
        }
      } else if w == "-k" {
        if i + 1 < |argv| {
          i := i + 1;
          args := args.(key := Some(argv[i]));
        } else {
          return None;
        }
      } else if w == "-h" || w == "--help" {
        return None;
      } else {
        return None;
      }
      i := i + 1;
    }
    if !(args.compress || args.decompress || args.encrypt || args.decrypt) {
      return None;
    }
    if args.input.None? {
      return None;
    }
    if args.output.None? {
      return None;
    }
    if (args.compress || args.decompress) && args.compAlg.None? {
      return None;
    }
    if (args.encrypt || args.decrypt) && args.encAlg.None? {
      return None;
    }
    return Some(args);
  }

  // ---------------------------------------------------------------------------
  // Properties
  // ---------------------------------------------------------------------------

  /** The words a token stands for. */
  function Words(t: Token): seq<string>
  {
    match t
    case FlagToken(f) => [FlagWord(f)]
    case ValueToken(o, v) => [OptionWord(o), v]
  }

  /** The words a token sequence stands for. */
  function Serialize(ts: seq<Token>): seq<string>
  {
    if |ts| == 0 then [] else Words(ts[0]) + Serialize(ts[1..])
  }

  /** The first word of a token is recognised as the option it came from. */
  lemma WordsRecognised(t: Token)
    ensures t.FlagToken? ==> FlagOf(Words(t)[0]) == Some(t.flag)
    ensures t.ValueToken? ==> FlagOf(Words(t)[0]).None? && OptionOf(Words(t)[0]) == Some(t.option)
  {
  }

  /** `ts` in front of the tokens of a tokenization that did not stop. */
  function Prepend(ts: seq<Token>, o: Option<seq<Token>>): Option<seq<Token>>
  {
    match o
    case None => None
    case Some(us) => Some(ts + us)
  }

  lemma PrependTwice(t: Token, ts: seq<Token>, o: Option<seq<Token>>)
    ensures Prepend([t], Prepend(ts, o)) == Prepend([t] + ts, o)
  {
    if o.Some? {
      assert [t] + (ts + o.value) == ([t] + ts) + o.value;
    }
  }

  /** Tokens in front of tokens in front of a tokenization. */
  lemma PrependChain(whole: Option<seq<Token>>, tail: Option<seq<Token>>, rest: Option<seq<Token>>, ts: seq<Token>)
    requires |ts| > 0
    requires whole == Prepend([ts[0]], tail) && tail == Prepend(ts[1..], rest)
    ensures whole == Prepend(ts, rest)
  {
    PrependTwice(ts[0], ts[1..], rest);
    HeadTail(ts);
  }

  lemma PrependNothing(o: Option<seq<Token>>)
    ensures Prepend([], o) == o
  {
    if o.Some? {
      assert [] + o.value == o.value;
    }
  }

  /** Tokenizing from word `i` where one token's words occupy `argv[i..j]`. */
  lemma TokenizeOne(argv: seq<string>, i: nat, j: nat, t: Token)
    requires j == i + |Words(t)| <= |argv| && argv[i..j] == Words(t)
    ensures Tokenize(argv, i) == Prepend([t], Tokenize(argv, j))
  {
    WordsRecognised(t);
    assert argv[i] == Words(t)[0];
    if t.ValueToken? {
      assert argv[i + 1] == Words(t)[1];
    }
  }

  /** A slice that is a concatenation splits into two slices. */
  lemma SliceSplit(a: seq<string>, i: nat, j: nat, k: nat, w: seq<string>, r: seq<string>)
    requires j == i + |w| && k == j + |r| <= |a| && a[i..k] == w + r
    ensures a[i..j] == w && a[j..k] == r
  {
    var here := a[i..k];
    assert a[i..j] == here[..|w|];
    assert a[j..k] == here[|w|..];
  }

  /** Where the words of `ts` occupy `argv[i..end]`, the words of `ts[0]`
      occupy `argv[i..j]` and those of `ts[1..]` the rest. */
  lemma SerializeSplit(argv: seq<string>, i: nat, j: nat, end: nat, ts: seq<Token>)
    requires |ts| > 0
    requires j == i + |Words(ts[0])| && end == i + |Serialize(ts)| <= |argv|
    requires argv[i..end] == Serialize(ts)
    ensures end == j + |Serialize(ts[1..])|
    ensures argv[i..j] == Words(ts[0]) && argv[j..end] == Serialize(ts[1..])
  {
    var ws := Words(ts[0]);
    var rest := Serialize(ts[1..]);
    assert Serialize(ts) == ws + rest;
    SliceSplit(argv, i, j, end, ws, rest);
  }

  /** Tokenizing from word `i` where well-formed options occupy `argv[i..end]`:
      their tokens come first, then whatever the rest of the line yields. */
  lemma {:induction false} TokenizeSerialized(argv: seq<string>, i: nat, end: nat, ts: seq<Token>)
    requires end == i + |Serialize(ts)| <= |argv|
    requires argv[i..end] == Serialize(ts)
    ensures Tokenize(argv, i) == Prepend(ts, Tokenize(argv, end))
    decreases |ts|
  {
    if |ts| > 0 {
      var j := i + |Words(ts[0])|;
      SerializeSplit(argv, i, j, end, ts);
      TokenizeSerialized(argv, j, end, ts[1..]);
      TokenizeOne(argv, i, j, ts[0]);
      PrependChain(Tokenize(argv, i), Tokenize(argv, j), Tokenize(argv, end), ts);
    } else {
      PrependNothing(Tokenize(argv, i));
    }
  }

  /** A successful tokenization spells the line back exactly: every word is a
      recognised option or the value right after a value option. */
  lemma {:induction false} TokenizeSpells(argv: seq<string>, i: nat)
    requires i <= |argv| && Tokenize(argv, i).Some?
    ensures Serialize(Tokenize(argv, i).value) == argv[i..]
    decreases |argv| - i
  {
    if i < |argv| {
      var ts := Tokenize(argv, i).value;
      var w := argv[i];
      if FlagOf(w).Some? {
        TokenizeSpells(argv, i + 1);
        assert ts[1..] == Tokenize(argv, i + 1).value;
        assert argv[i..] == [w] + argv[i + 1..];
      } else {
        TokenizeSpells(argv, i + 2);
        assert ts[1..] == Tokenize(argv, i + 2).value;
        assert argv[i..] == [w, argv[i + 1]] + argv[i + 2..];
      }
    }
  }

  /** The positions of a line made of a program name, some words, one more
      word and a tail. */
  lemma LineShape(prog: string, ws: seq<string>, w: string, rest: seq<string>, argv: seq<string>)
    requires argv == [prog] + ws + [w] + rest
    ensures |argv| == 2 + |ws| + |rest|
    ensures argv[1..1 + |ws|] == ws && argv[1 + |ws|] == w
  {
    assert argv[1..1 + |ws|] == ws;
  }

  /** Well-formed options always tokenize back to themselves; the value after
      a value option is taken verbatim, even when it looks like an option. */
  lemma SerializeRoundTrip(prog: string, ts: seq<Token>)
    ensures Tokenize([prog] + Serialize(ts), 1) == Some(ts)
  {
    var argv := [prog] + Serialize(ts);
    assert argv[1..] == Serialize(ts);
    TokenizeSerialized(argv, 1, |argv|, ts);
    AppendNothing(ts);
  }

  /** Reaching -h or --help gives NULL, whatever came before or comes after. */
  lemma HelpRejects(prog: string, ts: seq<Token>, w: string, rest: seq<string>)
    requires IsHelp(w)
    ensures Parse([prog] + Serialize(ts) + [w] + rest) == None
  {
    assert FlagOf(w).None? && OptionOf(w).None?;
    UnknownRejects(prog, ts, w, rest);
  }

  /** A word that is not one of the eleven options, met where an option is
      expected, gives NULL. */
  lemma UnknownRejects(prog: string, ts: seq<Token>, w: string, rest: seq<string>)
    requires FlagOf(w).None? && OptionOf(w).None?
    ensures Parse([prog] + Serialize(ts) + [w] + rest) == None
  {
    var argv := [prog] + Serialize(ts) + [w] + rest;
    LineShape(prog, Serialize(ts), w, rest, argv);
    TokenizeSerialized(argv, 1, 1 + |Serialize(ts)|, ts);
  }

  /** A value option as the last word gives NULL. */
  lemma MissingValueRejects(prog: string, ts: seq<Token>, o: ValueOption)
    ensures Parse([prog] + Serialize(ts) + [OptionWord(o)]) == None
  {
    var argv := [prog] + Serialize(ts) + [OptionWord(o)];
    AppendNothing(argv);
    LineShape(prog, Serialize(ts), OptionWord(o), [], argv);
    TokenizeSerialized(argv, 1, 1 + |Serialize(ts)|, ts);
  }

  /** The value field an option sets. */
  function Field(a: Arguments, o: ValueOption): Option<string>
  {
    match o
    case CompAlg => a.compAlg
    case EncAlg => a.encAlg
    case Input => a.input
    case Output => a.output
    case Key => a.key
  }

  /** The flag field an operation word sets. */
  function FlagField(a: Arguments, f: Flag): bool
  {
    match f
    case Compress => a.compress
    case Decompress => a.decompress
    case Encrypt => a.encrypt
    case Decrypt => a.decrypt
  }

  /** The value of the last occurrence of option `o` in `ts`, if any. */
  function LastValue(ts: seq<Token>, o: ValueOption): Option<string>
    decreases |ts|
  {
    if |ts| == 0 then None
    else
      var t := ts[|ts| - 1];
      if t.ValueToken? && t.option == o then Some(t.value) else LastValue(ts[..|ts| - 1], o)
  }

  lemma {:induction false} ApplyAllSnoc(a: Arguments, ts: seq<Token>, t: Token)
    ensures ApplyAll(a, ts + [t]) == Apply(ApplyAll(a, ts), t)
    decreases |ts|
  {
    if |ts| > 0 {
      assert (ts + [t])[1..] == ts[1..] + [t];
      ApplyAllSnoc(Apply(a, ts[0]), ts[1..], t);
    }
  }

  /** When a value option is repeated the last occurrence wins; an option never
      given keeps the value it had. */
  lemma {:induction false} LastOccurrenceWins(a: Arguments, ts: seq<Token>, o: ValueOption)
    ensures Field(ApplyAll(a, ts), o)
         == if LastValue(ts, o).Some? then LastValue(ts, o) else Field(a, o)
    decreases |ts|
  {
    if |ts| > 0 {
      var init := ts[..|ts| - 1];
      var t := ts[|ts| - 1];
      assert ts == init + [t];
      ApplyAllSnoc(a, init, t);
      LastOccurrenceWins(a, init, o);
      FieldApply(ApplyAll(a, init), t, o);
    }
  }

  /** One token sets the field of its own option and no other. */
  lemma FieldApply(a: Arguments, t: Token, o: ValueOption)
    ensures Field(Apply(a, t), o) == if t.ValueToken? && t.option == o then Some(t.value) else Field(a, o)
  {
  }

  lemma FlagApply(a: Arguments, t: Token, f: Flag)
    ensures FlagField(Apply(a, t), f) <==> FlagField(a, f) || t == FlagToken(f)
  {
  }

  /** Each operation flag is set exactly when its word occurs: the flags are
      independent, so several may be set at once. */
  lemma {:induction false} FlagsIndependent(a: Arguments, ts: seq<Token>, f: Flag)
    ensures FlagField(ApplyAll(a, ts), f) <==> FlagField(a, f) || FlagToken(f) in ts
    decreases |ts|
  {
    if |ts| > 0 {
      FlagsIndependent(Apply(a, ts[0]), ts[1..], f);
      FlagApply(a, ts[0], f);
      InHeadTail(FlagToken(f), ts);
    }
  }

  /** The tokens of the command line
      `gsea -c -e --comp-alg c --enc-alg e -k k -i -c -o -o`:
      two operation flags, and an input path that looks like an option. */
  function SampleTokens(c: string, e: string, k: string): seq<Token>
  {
    [FlagToken(Compress), FlagToken(Encrypt), ValueToken(CompAlg, c), ValueToken(EncAlg, e),
     ValueToken(Key, k), ValueToken(Input, "-c"), ValueToken(Output, "-o")]
  }

  lemma SampleFields(c: string, e: string, k: string)
    ensures ApplyAll(Initial, SampleTokens(c, e, k))
         == Arguments(true, false, true, false, Some(c), Some(e), Some("-c"), Some("-o"), Some(k))
  {
    var ts := SampleTokens(c, e, k);
    var a1 := Initial.(compress := true);
    var a2 := a1.(encrypt := true);
    var a3 := a2.(compAlg := Some(c));
    var a4 := a3.(encAlg := Some(e));
    var a5 := a4.(key := Some(k));
    var a6 := a5.(input := Some("-c"));
    var a7 := a6.(output := Some("-o"));
    assert ApplyAll(a7, ts[7..]) == a7;
    assert ApplyAll(a6, ts[6..]) == ApplyAll(a7, ts[7..]);
    assert ApplyAll(a5, ts[5..]) == ApplyAll(a6, ts[6..]);
    assert ApplyAll(a4, ts[4..]) == ApplyAll(a5, ts[5..]);
    assert ApplyAll(a3, ts[3..]) == ApplyAll(a4, ts[4..]);
    assert ApplyAll(a2, ts[2..]) == ApplyAll(a3, ts[3..]);
    assert ApplyAll(a1, ts[1..]) == ApplyAll(a2, ts[2..]);
  }

  /** Option values, including the algorithm names and the key, are taken
      verbatim (nothing checks their contents), a value may look like an
      option, and several operation flags may be set at once. */
  lemma ValuesUnchecked(prog: string, c: string, e: string, k: string)
    ensures Parse([prog] + Serialize(SampleTokens(c, e, k)))
         == Some(Arguments(true, false, true, false, Some(c), Some(e), Some("-c"), Some("-o"), Some(k)))
  {
    SerializeRoundTrip(prog, SampleTokens(c, e, k));
    SampleFields(c, e, k);
  }
}
