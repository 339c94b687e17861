/**
 * The command line (`main`): argument validation, the extension tests
 * `is_xml_file` and `is_json_file`, the limit normalisation through Python's
 * `int()`, and the dispatch to single-file or directory mode.
 */
module Cli {
  import opened Util
  import opened Paths
  import opened Ruleset
  import opened Emit
  import opened Corpus

  const JsonExt: string := ".json"

  /** `is_xml_file`: the base name ends in ".xml", in any case, after a stem that is not only dots. */
  function IsXmlFile(file: string): (b: bool)
    ensures b <==> NamedWith(Basename(file), ".xml")
  {
    HasExtensionIff(file, XmlExt);
    HasExtension(file, XmlExt)
  }

  /** `is_json_file`: the same test for ".json". */
  function IsJsonFile(file: string): (b: bool)
    ensures b <==> NamedWith(Basename(file), ".json")
  {
    HasExtensionIff(file, JsonExt);
    HasExtension(file, JsonExt)
  }

  // ---------------------------------------------------------------------
  // Python's int() on a string, restricted to ASCII.

  /** The ASCII white space `int()` skips around a number. */
  predicate IsSpace(c: char)
  {
    c in {' ', '\t', '\n', '\r', '\U{0B}', '\U{0C}'}
  }

  function TrimLeft(s: string): string
    decreases |s|
  {
    if s != [] && IsSpace(s[0]) then TrimLeft(s[1..]) else s
  }

  function TrimRight(s: string): string
    decreases |s|
  {
    if s != [] && IsSpace(s[|s| - 1]) then TrimRight(s[..|s| - 1]) else s
  }

  function Strip(s: string): string
  {
    TrimRight(TrimLeft(s))
  }

  predicate IsDigit(c: char)
  {
    '0' <= c <= '9'
  }

  /** Decimal digits, with single underscores allowed between two digits. */
  predicate DigitGroups(s: string)
  {
    s != [] && IsDigit(s[0]) && IsDigit(s[|s| - 1])
    && (forall i :: 0 <= i < |s| ==> IsDigit(s[i]) || s[i] == '_')
    && (forall i :: 0 <= i < |s| - 1 && s[i] == '_' ==> IsDigit(s[i + 1]))
  }

  function DigitValue(c: char): nat
  {
    if IsDigit(c) then c as int - '0' as int else 0
  }

  /** The value of a digit string, underscores ignored. */
  function DigitsValue(s: string): nat
    decreases |s|
  {
    if s == [] then 0
    else if s[|s| - 1] == '_' then DigitsValue(s[..|s| - 1])
    else DigitsValue(s[..|s| - 1]) * 10 + DigitValue(s[|s| - 1])
  }

  /**
   * The default of `sys.int_max_str_digits`: `int()` refuses a decimal
   * string with more digits than this (leading zeros included, underscores
   * not).
   */
  const MaxStrDigits: nat := 4300

  /** The number of decimal digits in `s`. */
  function DigitCount(s: string): nat
    decreases |s|
  {
    if s == [] then 0 else (if IsDigit(s[0]) then 1 else 0) + DigitCount(s[1..])
  }

  /** A numeral `int()` accepts: digit groups within the digit limit. */
  predicate Numeral(s: string)
  {
    DigitGroups(s) && DigitCount(s) <= MaxStrDigits
  }

  /** `int(s)`: surrounding white space, an optional sign, then digit groups; None where Python raises ValueError. */
  function ParseInt(s: string): Option<int>
  {
    var t := Strip(s);
    if t != [] && (t[0] == '-' || t[0] == '+') then
      var magnitude: int := DigitsValue(t[1..]);
      if Numeral(t[1..]) then Some(if t[0] == '-' then -magnitude else magnitude)
      else None
    else if Numeral(t) then Some(DigitsValue(t))
    else None
  }

  function Pow10(k: nat): nat
  {
    if k == 0 then 1 else 10 * Pow10(k - 1)
  }

  function NatDigits(m: nat): string
    decreases m
  {
    if m < 10 then [('0' as int + m) as char] else NatDigits(m / 10) + [('0' as int + m % 10) as char]
  }

  /** `str(n)`: the decimal spelling of an integer. */
  function Render(n: int): string
  {
    if n < 0 then "-" + NatDigits(-n) else NatDigits(n)
  }

  lemma {:induction false} NatDigitsShape(m: nat)
    ensures |NatDigits(m)| > 0
    ensures forall i :: 0 <= i < |NatDigits(m)| ==> IsDigit(NatDigits(m)[i])
    ensures DigitsValue(NatDigits(m)) == m
    decreases m
  {
    if m >= 10 {
      NatDigitsShape(m / 10);
      var d := NatDigits(m);
      assert d[..|d| - 1] == NatDigits(m / 10);
    }
  }

  lemma StripUnspaced(s: string)
    requires s != [] && !IsSpace(s[0]) && !IsSpace(s[|s| - 1])
    ensures Strip(s) == s
  {
  }

  /** A string of digits only has as many digits as characters. */
  lemma {:induction false} DigitCountAllDigits(s: string)
    requires forall i :: 0 <= i < |s| ==> IsDigit(s[i])
    ensures DigitCount(s) == |s|
    decreases |s|
  {
    if s != [] {
      DigitCountAllDigits(s[1..]);
    }
  }

  /** `m` has at most `k` decimal digits exactly when it is below `10^k`. */
  lemma {:induction false} NatDigitsLength(m: nat, k: nat)
    requires k >= 1
    ensures |NatDigits(m)| <= k <==> m < Pow10(k)
    decreases m
  {
    if m >= 10 {
      assert |NatDigits(m)| == |NatDigits(m / 10)| + 1;
      assert m < Pow10(k) <==> m / 10 < Pow10(k - 1);
      if k >= 2 {
        NatDigitsLength(m / 10, k - 1);
      } else {
        NatDigitsShape(m / 10);
      }
    } else {
      assert Pow10(k) == 10 * Pow10(k - 1);
      PowPositive(k - 1);
    }
  }

  lemma {:induction false} PowPositive(k: nat)
    ensures Pow10(k) >= 1
    decreases k
  {
    if k > 0 {
      PowPositive(k - 1);
    }
  }

  /**
   * `int(str(n))`: the decimal spelling of an integer below `10^4300` in
   * magnitude parses back to it; a longer spelling is refused.
   */
  lemma ParseRender(n: int)
    ensures ParseInt(Render(n)) == if -n < Pow10(MaxStrDigits) && n < Pow10(MaxStrDigits) then Some(n) else None
  {
    var m: nat := if n < 0 then -n else n;
    NatDigitsShape(m);
    var d := NatDigits(m);
    DigitCountAllDigits(d);
    NatDigitsLength(m, MaxStrDigits);
    var r := Render(n);
    StripUnspaced(r);
    if n < 0 {
      assert r[1..] == d;
    }
  }

  /** Python's `None` or a string that int() rejects gives -1; any other string gives its value. */
  function NormalizeLimit(limit: Option<string>): int
  {
    if limit.None? || ParseInt(limit.value).None? then -1 else ParseInt(limit.value).value
  }

  /** "-1" followed by 4300 zeros or more has too many digits for `int()`, so there is no limit. */
  lemma LongSpellingIgnored(zeros: string)
    requires |zeros| >= MaxStrDigits
    requires forall i :: 0 <= i < |zeros| ==> zeros[i] == '0'
    ensures NormalizeLimit(Some("-1" + zeros)) == -1
  {
    var t := "-1" + zeros;
    StripUnspaced(t);
    assert t[1..] == "1" + zeros;
    DigitCountAllDigits(t[1..]);
  }

  /** An ASCII file separator (0x1C) before the digits is not white space to `int()`, so there is no limit. */
  lemma SeparatorBeforeDigits()
    ensures NormalizeLimit(Some("\U{1C}5")) == -1
  {
    assert Strip("\U{1C}5") == "\U{1C}5" by {
      StripUnspaced("\U{1C}5");
    }
  }

  /** Trimming only removes characters. */
  lemma {:induction false} StripKeepsCharacters(s: string)
    ensures forall c :: c in Strip(s) ==> c in s
  {
    TrimLeftKeeps(s);
    TrimRightKeeps(TrimLeft(s));
  }

  lemma {:induction false} TrimLeftKeeps(s: string)
    ensures forall c :: c in TrimLeft(s) ==> c in s
    decreases |s|
  {
    if s != [] && IsSpace(s[0]) {
      TrimLeftKeeps(s[1..]);
    }
  }

  lemma {:induction false} TrimRightKeeps(s: string)
    ensures forall c :: c in TrimRight(s) ==> c in s
    decreases |s|
  {
    if s != [] && IsSpace(s[|s| - 1]) {
      TrimRightKeeps(s[..|s| - 1]);
    }
  }

  /**
   * The limit is the number written, as long as `int()` accepts its
   * spelling; a spelling of more than 4300 digits, or "no digit at all",
   * means no limit.
   */
  lemma NormalizeLimitMeaning(n: int, s: string)
    ensures NormalizeLimit(None) == -1
    ensures NormalizeLimit(Some(Render(n))) == if -n < Pow10(MaxStrDigits) && n < Pow10(MaxStrDigits) then n else -1
    ensures (forall i :: 0 <= i < |s| ==> !IsDigit(s[i])) ==> NormalizeLimit(Some(s)) == -1
  {
    ParseRender(n);
    StripKeepsCharacters(s);
    var t := Strip(s);
    if forall i :: 0 <= i < |s| ==> !IsDigit(s[i]) {
      if t != [] {
        assert t[|t| - 1] in s;
        assert !IsDigit(t[|t| - 1]);
      }
    }
  }

  // ---------------------------------------------------------------------
  // Arguments and dispatch.

  /** The parsed arguments; `dir` defaults to "./", so it is always present. */
  datatype Args = Args(file: Option<string>, dir: string, output: Option<string>, limit: Option<string>)

  /** The three `ArgumentTypeError`s of `main`. */
  datatype ArgError = NotADirectory(dir: string) | NotAnXmlFile(file: string) | NotAJsonFile(output: string)

  /** The checks of `main`, in their order: directory, then input file, then output file. */
  function Validate(args: Args, isDir: string -> bool): (r: Option<ArgError>)
    ensures r.None? <==> isDir(args.dir)
                          && (args.file.Some? ==> NamedWith(Basename(args.file.value), ".xml"))
                          && (args.output.Some? ==> NamedWith(Basename(args.output.value), ".json"))
    ensures !isDir(args.dir) ==> r == Some(NotADirectory(args.dir))
    ensures isDir(args.dir) && args.file.Some? && !NamedWith(Basename(args.file.value), ".xml")
            ==> r == Some(NotAnXmlFile(args.file.value))
    ensures isDir(args.dir) && (args.file.Some? ==> NamedWith(Basename(args.file.value), ".xml"))
            && args.output.Some? && !NamedWith(Basename(args.output.value), ".json")
            ==> r == Some(NotAJsonFile(args.output.value))
  {
    if !isDir(args.dir) then Some(NotADirectory(args.dir))
    else if args.file.Some? && !IsXmlFile(args.file.value) then Some(NotAnXmlFile(args.file.value))
    else if args.output.Some? && !IsJsonFile(args.output.value) then Some(NotAJsonFile(args.output.value))
    else None
  }

  /** A run ends with an argument error or with what `generate_json` produced. */
  datatype Run = Rejected(error: ArgError) | Completed(emission: Emission)

  /**
   * `main`, with the file system given as `isDir`, the parsed content of the
   * named file as `readDoc`, and the listing of the walk from `--dir` as
   * `walk`. The verdict on the arguments depends on none of the three
   * inputs that extraction reads.
   */
  method RunMain(args: Args, isDir: string -> bool, readDoc: string -> Document, walk: seq<Batch>) returns (r: Run)
    ensures r.Rejected? <==> Validate(args, isDir).Some?
    ensures r.Rejected? ==> Validate(args, isDir) == Some(r.error)
    ensures r.Completed? && args.file.Some? ==>
              r.emission == Emitted(Extract(args.file.value, readDoc(args.file.value)), [], 0)
    ensures r.Completed? && args.file.None? ==>
              var t := RunWalk(Start, walk, NormalizeLimit(args.limit));
              r.emission == Emitted(Some(t.targets), t.skipped, t.goodFiles)
  {
    var err := Validate(args, isDir);
    if err.Some? {
      return Rejected(err.value);
    }
    if args.file.None? {
      var limit := NormalizeLimit(args.limit);
      var tally, out := ParseDir(walk, limit);
      r := Completed(out);
    } else {
      var found := GetTargets(args.file.value, readDoc(args.file.value));
      var out := GenerateJson(found, [], 0);
      r := Completed(out);
    }
  }

  /**
   * In single-file mode the extension guard has already passed, so the run
   * produces rules exactly when the document is eligible and has a target,
   * and it never reports skipped files.
   */
  lemma SingleFileOutcome(args: Args, isDir: string -> bool, doc: Document)
    requires Validate(args, isDir).None? && args.file.Some?
    ensures Emitted(Extract(args.file.value, doc), [], 0).Rules? <==> Eligible(doc) && doc.targets != []
    ensures Emitted(Extract(args.file.value, doc), [], 0).Rules? ==>
              Emitted(Extract(args.file.value, doc), [], 0).skips == None
  {
    assert IsXmlFile(args.file.value);
    if Eligible(doc) {
      assert |Hosts(doc.targets)| == |doc.targets|;
    }
  }
}
