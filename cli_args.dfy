/**
 * The process boundary's command line: the argument vector that
 * backend/services/gif_service.py builds, and the argparse parser that
 * backend/scripts/generate_gif_standalone.py declares for it
 * (`--input`, `--output` required; `--width`, `--height`, `--duration`,
 * `--fps` integers defaulting to 600, 400, 3 and 30).
 */
module CliArgs {
  import opened Wrappers
  import opened Text

  /** The capture request as both sides of the boundary see it. */
  datatype GifArgs = GifArgs(input: string, output: string, width: int, height: int, duration: int, fps: int)

  const DefaultWidth: int := 600
  const DefaultHeight: int := 400
  const DefaultDuration: int := 3
  const DefaultFps: int := 30

  predicate IsDigit(c: char) {
    '0' <= c <= '9'
  }

  predicate AllDigits(s: string) {
    forall i :: 0 <= i < |s| ==> IsDigit(s[i])
  }

  function DigitChar(d: nat): (c: char)
    requires d < 10
    ensures IsDigit(c) && c as int - '0' as int == d
  {
    ('0' as int + d) as char
  }

  /** Decimal digits of `n`, without leading zeros. */
  function NatToString(n: nat): (s: string)
    ensures |s| > 0 && AllDigits(s)
    ensures s[0] == '0' ==> n == 0
    decreases n
  {
    if n < 10 then [DigitChar(n)] else NatToString(n / 10) + [DigitChar(n % 10)]
  }

  /** Python's `str(n)` for an integer. */
  function IntToString(n: int): (s: string)
    ensures |s| > 0
    ensures n >= 0 ==> IsDigit(s[0]) && AllDigits(s)
    ensures n < 0 ==> s[0] == '-' && |s| >= 2 && AllDigits(s[1..])
  {
    if n >= 0 then NatToString(n) else "-" + NatToString(-n)
  }

  /** The value of a non-empty run of decimal digits. */
  function DigitsValue(s: string): nat
    requires AllDigits(s)
    decreases |s|
  {
    if s == [] then 0 else 10 * DigitsValue(s[..|s| - 1]) + (s[|s| - 1] as int - '0' as int)
  }

  lemma {:induction false} DigitsValueOfNatToString(n: nat)
    ensures DigitsValue(NatToString(n)) == n
    decreases n
  {
    if n >= 10 {
      var s := NatToString(n);
      assert s[..|s| - 1] == NatToString(n / 10);
      DigitsValueOfNatToString(n / 10);
    } else {
      assert NatToString(n)[..0] == [];
    }
  }

  /**
   * Python's `int(s)` on a string: surrounding whitespace, an optional sign,
   * then one or more decimal digits; anything else raises `ValueError`.
   */
  function ParseInt(s: string): (r: Option<int>)
  {
    ParseSigned(Strip(s))
  }

  /** An optional sign then one or more decimal digits, nothing else. */
  function ParseSigned(t: string): (r: Option<int>)
  {
    if |t| > 0 && (t[0] == '-' || t[0] == '+') then
      if |t| > 1 && AllDigits(t[1..]) then
        var v: int := DigitsValue(t[1..]);
        Some(if t[0] == '-' then -v else v)
      else None
    else if |t| > 0 && AllDigits(t) then Some(DigitsValue(t))
    else None
  }

  /** Without surrounding whitespace, `int(s)` only has to read the sign and the digits. */
  lemma ParseIntUnpadded(s: string)
    requires |s| > 0 && !IsSpace(s[0]) && !IsSpace(s[|s| - 1])
    ensures ParseInt(s) == ParseSigned(s)
  {
    TrimWithUnpadded(s, IsSpace);
  }

  /** `int(str(n)) == n`. */
  lemma {:induction false} ParseIntOfIntToString(n: int)
    ensures ParseInt(IntToString(n)) == Some(n)
  {
    if n >= 0 {
      ParseIntOfNatToString(n);
    } else {
      assert IntToString(n) == "-" + NatToString(-n);
      ParseIntOfNegative(-n);
    }
  }

  lemma ParseIntOfNegative(m: nat)
    ensures ParseInt("-" + NatToString(m)) == Some(-(m as int))
  {
    ParseIntOfMinus(NatToString(m));
    DigitsValueOfNatToString(m);
  }

  lemma ParseIntOfMinus(d: string)
    requires |d| > 0 && AllDigits(d)
    ensures ParseInt("-" + d) == Some(-(DigitsValue(d) as int))
  {
    var s := "-" + d;
    assert !IsSpace(s[0]) && IsDigit(s[|s| - 1]);
    ParseIntUnpadded(s);
    SignedOfMinus(d);
  }

  lemma SignedOfMinus(d: string)
    requires |d| > 0 && AllDigits(d)
    ensures ParseSigned("-" + d) == Some(-(DigitsValue(d) as int))
  {
    assert ("-" + d)[1..] == d;
  }

  lemma ParseIntOfNatToString(n: nat)
    ensures ParseInt(NatToString(n)) == Some(n)
  {
    var s := NatToString(n);
    assert IsDigit(s[0]) && IsDigit(s[|s| - 1]);
    ParseIntUnpadded(s);
    DigitsValueOfNatToString(n);
    assert s[0] != '-' && s[0] != '+';
  }

  /**
   * argparse's negative-number pattern `^-\d+$|^-\d*\.\d+$`, matched from the
   * start, where `$` may also sit before one final newline.
   */
  predicate IsNegativeNumber(s: string) {
    var b := if |s| > 0 && s[|s| - 1] == '\n' then s[..|s| - 1] else s;
    |b| >= 2 && b[0] == '-' &&
    (AllDigits(b[1..]) ||
     exists k :: 1 <= k < |b| - 1 && b[k] == '.' && AllDigits(b[1..k]) && AllDigits(b[k + 1..]))
  }

  /**
   * argparse reads a token as an argument value rather than an option when it is
   * empty, does not start with '-', is the lone "-", is a negative number (this
   * parser declares no option that looks like one) or contains a space.
   */
  predicate IsValueToken(s: string) {
    s == [] || s[0] != '-' || s == "-" || IsNegativeNumber(s) || Contains(s, " ")
  }

  lemma IntToStringIsValueToken(n: int)
    ensures IsValueToken(IntToString(n))
  {
    var s := IntToString(n);
    if n < 0 {
      assert s[1..] == s[1..|s|];
    }
  }

  /** The six option strings the standalone parser declares, in declaration order. */
  const Options: seq<string> := ["--input", "--output", "--width", "--height", "--duration", "--fps"]

  predicate IsHelp(s: string) {
    s == "-h" || s == "--help"
  }

  /** `cmd` in gif_service.py: interpreter, script, then each option followed by its value. */
  function BuildCommand(python: string, script: string, a: GifArgs): (cmd: seq<string>)
    ensures |cmd| == 14 && cmd[0] == python && cmd[1] == script
    ensures forall k :: 0 <= k < 6 ==> cmd[2 + 2 * k] == Options[k]
    ensures cmd[3] == a.input && cmd[5] == a.output
    ensures cmd[7] == IntToString(a.width) && cmd[9] == IntToString(a.height)
    ensures cmd[11] == IntToString(a.duration) && cmd[13] == IntToString(a.fps)
  {
    [python, script,
     "--input", a.input,
     "--output", a.output,
     "--width", IntToString(a.width),
     "--height", IntToString(a.height),
     "--duration", IntToString(a.duration),
     "--fps", IntToString(a.fps)]
  }

  datatype ParseError =
    | ExpectedOneArgument(option: string)
    | InvalidInt(option: string, value: string)
    | RequiredMissing(options: seq<string>)
    | Unrecognized(tokens: seq<string>)

  /** `parse_args` either yields the namespace, prints help and exits 0, or reports an error and exits 2. */
  datatype ParseOutcome = Parsed(args: GifArgs) | HelpShown | ParseFailed(error: ParseError)

  /** What has been read so far: the last occurrence of an option wins. */
  datatype Partial = Partial(
    input: Option<string>, output: Option<string>,
    width: Option<int>, height: Option<int>, duration: Option<int>, fps: Option<int>,
    extras: seq<string>)

  const Empty: Partial := Partial(None, None, None, None, None, None, [])

  /** Records the value of option number `k`, converting it when the option has `type=int`. */
  function Store(p: Partial, k: nat, value: string): Result<Partial, ParseError>
    requires k < 6
  {
    if k == 0 then Ok(p.(input := Some(value)))
    else if k == 1 then Ok(p.(output := Some(value)))
    else match ParseInt(value)
      case None => Err(InvalidInt(Options[k], value))
      case Some(n) => Ok(SetInt(p, k, n))
  }

  function SetInt(p: Partial, k: nat, n: int): Partial
    requires 2 <= k < 6
  {
    if k == 2 then p.(width := Some(n))
    else if k == 3 then p.(height := Some(n))
    else if k == 4 then p.(duration := Some(n))
    else p.(fps := Some(n))
  }

  function IndexOfOption(tok: string): (r: Option<nat>)
    ensures r.Some? ==> r.value < 6 && Options[r.value] == tok
    ensures r.None? ==> tok !in Options
  {
    if tok == "--input" then Some(0)
    else if tok == "--output" then Some(1)
    else if tok == "--width" then Some(2)
    else if tok == "--height" then Some(3)
    else if tok == "--duration" then Some(4)
    else if tok == "--fps" then Some(5)
    else None
  }

  /** End of input: the required check comes first, then leftover tokens, then defaults. */
  function Finish(p: Partial): ParseOutcome {
    if p.input.None? || p.output.None? then
      ParseFailed(RequiredMissing((if p.input.None? then ["--input"] else [])
                                  + (if p.output.None? then ["--output"] else [])))
    else if p.extras != [] then ParseFailed(Unrecognized(p.extras))
    else Parsed(GifArgs(p.input.value, p.output.value,
                        if p.width.Some? then p.width.value else DefaultWidth,
                        if p.height.Some? then p.height.value else DefaultHeight,
                        if p.duration.Some? then p.duration.value else DefaultDuration,
                        if p.fps.Some? then p.fps.value else DefaultFps))
  }

  /** Reads the tokens from position `i` on, left to right. */
  function ParseFrom(argv: seq<string>, i: nat, p: Partial): ParseOutcome
    requires i <= |argv|
    decreases |argv| - i
  {
    if i == |argv| then Finish(p)
    else if IsHelp(argv[i]) then HelpShown
    else match IndexOfOption(argv[i])
      case None => ParseFrom(argv, i + 1, p.(extras := p.extras + [argv[i]]))
      case Some(k) =>
        if i + 1 < |argv| && IsValueToken(argv[i + 1]) then
          match Store(p, k, argv[i + 1])
          case Err(e) => ParseFailed(e)
          case Ok(p') => ParseFrom(argv, i + 2, p')
        else ParseFailed(ExpectedOneArgument(argv[i]))
  }

  /** `parser.parse_args()` on the arguments after the script name. */
  function Parse(args: seq<string>): ParseOutcome {
    ParseFrom(args, 0, Empty)
  }

  /** One well-formed `option value` pair is consumed and stored. */
  lemma ParseStepOption(argv: seq<string>, i: nat, p: Partial, k: nat, p': Partial)
    requires i + 1 < |argv| && k < 6 && argv[i] == Options[k]
    requires IsValueToken(argv[i + 1]) && Store(p, k, argv[i + 1]) == Ok(p')
    ensures ParseFrom(argv, i, p) == ParseFrom(argv, i + 2, p')
  {
    assert !IsHelp(argv[i]);
    assert IndexOfOption(argv[i]) == Some(k);
  }

  /** An integer option followed by `str(n)` stores `n`. */
  lemma ParseStepInt(argv: seq<string>, i: nat, p: Partial, k: nat, n: int)
    requires i + 1 < |argv| && 2 <= k < 6 && argv[i] == Options[k] && argv[i + 1] == IntToString(n)
    ensures ParseFrom(argv, i, p) == ParseFrom(argv, i + 2, SetInt(p, k, n))
  {
    IntToStringIsValueToken(n);
    ParseIntOfIntToString(n);
    ParseStepOption(argv, i, p, k, SetInt(p, k, n));
  }

  /** The integer that option number `k` carries in `a`. */
  function IntOf(a: GifArgs, k: nat): int
    requires 2 <= k < 6
  {
    if k == 2 then a.width else if k == 3 then a.height else if k == 4 then a.duration else a.fps
  }

  /** The token gif_service.py writes after option number `k`. */
  function ValueOf(a: GifArgs, k: nat): string
    requires k < 6
  {
    if k == 0 then a.input else if k == 1 then a.output else IntToString(IntOf(a, k))
  }

  /** What reading option number `k` of `a` records. */
  function Recorded(p: Partial, a: GifArgs, k: nat): Partial
    requires k < 6
  {
    if k == 0 then p.(input := Some(a.input))
    else if k == 1 then p.(output := Some(a.output))
    else SetInt(p, k, IntOf(a, k))
  }

  /** What reading options `k` to 5 of `a` in order records. */
  function RecordedFrom(p: Partial, a: GifArgs, k: nat): Partial
    requires k <= 6
    decreases 6 - k
  {
    if k == 6 then p else RecordedFrom(Recorded(p, a, k), a, k + 1)
  }

  /** Position `2k` of `argv` holds option number `k`, followed by its value in `a`. */
  predicate Slot(argv: seq<string>, a: GifArgs, k: nat)
    requires k < 6
  {
    2 * k + 1 < |argv| && argv[2 * k] == Options[k] && argv[2 * k + 1] == ValueOf(a, k)
  }

  /** Reading the well-formed pairs from pair `k` on records them one by one. */
  lemma {:induction false} ParsePairsFrom(argv: seq<string>, a: GifArgs, k: nat, p: Partial)
    requires k <= 6 && |argv| == 12 && IsValueToken(a.input) && IsValueToken(a.output)
    requires forall j :: k <= j < 6 ==> Slot(argv, a, j)
    ensures ParseFrom(argv, 2 * k, p) == Finish(RecordedFrom(p, a, k))
    decreases 6 - k
  {
    if k < 6 {
      assert Slot(argv, a, k);
      if k < 2 {
        ParseStepOption(argv, 2 * k, p, k, Recorded(p, a, k));
      } else {
        ParseStepInt(argv, 2 * k, p, k, IntOf(a, k));
      }
      ParsePairsFrom(argv, a, k + 1, Recorded(p, a, k));
    }
  }

  /**
   * The round trip across the process boundary: the script's parser reads back
   * exactly the paths and integers gif_service.py put on the command line.
   */
  lemma {:induction false} ParseBuildCommand(python: string, script: string, a: GifArgs)
    requires IsValueToken(a.input) && IsValueToken(a.output)
    ensures Parse(BuildCommand(python, script, a)[2..]) == Parsed(a)
  {
    var argv := BuildCommand(python, script, a)[2..];
    forall j | 0 <= j < 6
      ensures Slot(argv, a, j)
    {
      assert argv[2 * j] == Options[j];
    }
    ParsePairsFrom(argv, a, 0, Empty);
    var p1 := Recorded(Empty, a, 0);
    var p2 := Recorded(p1, a, 1);
    var p3 := Recorded(p2, a, 2);
    var p4 := Recorded(p3, a, 3);
    var p5 := Recorded(p4, a, 4);
    var p6 := Recorded(p5, a, 5);
    assert RecordedFrom(Empty, a, 0) == RecordedFrom(p6, a, 6);
  }

  /** Options the command leaves out fall back to the same defaults as the service's parameters. */
  lemma {:induction false} ParseDefaults(input: string, output: string)
    requires IsValueToken(input) && IsValueToken(output)
    ensures Parse(["--input", input, "--output", output])
            == Parsed(GifArgs(input, output, 600, 400, 3, 30))
  {
    var argv := ["--input", input, "--output", output];
    var p1 := Empty.(input := Some(input));
    var p2 := p1.(output := Some(output));
    ParseStepOption(argv, 0, Empty, 0, p1);
    ParseStepOption(argv, 2, p1, 1, p2);
  }

  /**
   * The round trip holds exactly when both paths read as values: a path that
   * looks like an option (say "-out.gif") leaves `--input` or `--output`
   * without its argument.
   */
  lemma {:induction false} ParseBuildCommandIff(python: string, script: string, a: GifArgs)
    ensures Parse(BuildCommand(python, script, a)[2..]).Parsed?
            <==> IsValueToken(a.input) && IsValueToken(a.output)
    ensures !IsValueToken(a.input) ==>
              Parse(BuildCommand(python, script, a)[2..]) == ParseFailed(ExpectedOneArgument("--input"))
    ensures IsValueToken(a.input) && !IsValueToken(a.output) ==>
              Parse(BuildCommand(python, script, a)[2..]) == ParseFailed(ExpectedOneArgument("--output"))
  {
    var argv := BuildCommand(python, script, a)[2..];
    assert argv[0] == "--input" && argv[1] == a.input && argv[2] == "--output" && argv[3] == a.output;
    assert !IsHelp(argv[0]) && IndexOfOption(argv[0]) == Some(0);
    if IsValueToken(a.input) {
      var p1 := Empty.(input := Some(a.input));
      ParseStepOption(argv, 0, Empty, 0, p1);
      if IsValueToken(a.output) {
        ParseBuildCommand(python, script, a);
      } else {
        assert !IsHelp(argv[2]) && IndexOfOption(argv[2]) == Some(1);
      }
    }
  }
}
