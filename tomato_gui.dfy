/**
 * The logic of the Tomato window in `glitch_hub/tomato_gui.py`: the name of
 * the datamoshed file, the argument list handed to the glitch engine, the
 * two slider handlers that keep the glitch frequency and length in [1, 12],
 * and the choice of the dropped file.
 */
module TomatoGui {
  import opened Results
  import opened Strings
  import opened Paths
  import DropParser

  /** The glitch modes the mode menu offers. */
  const MODES: seq<string> := ["void", "random", "reverse", "invert", "bloom", "pulse", "jiggle", "overlap"]

  /** The aggressiveness percentage, forced into [0, 100]. */
  function ClampPercent(p: int): (c: int)
    ensures 0 <= c <= 100
    ensures 0 <= p <= 100 ==> c == p
    ensures p < 0 ==> c == 0
    ensures p > 100 ==> c == 100
  {
    if p < 0 then 0 else if p > 100 then 100 else p
  }

  /** Clamping twice clamps no more, and clamping keeps the order of its inputs. */
  lemma ClampPercentIdempotentMonotone(p: int, q: int)
    ensures ClampPercent(ClampPercent(p)) == ClampPercent(p)
    ensures p <= q ==> ClampPercent(p) <= ClampPercent(q)
  {
  }

  /**
   * `<stem>-<mode>-f<count>-l<length>-a<percent>.avi`: the stem, a dash, the
   * mode, and a name that ends in `.avi`.
   */
  function OutputName(stem: string, mode: string, count: int, length: int, percent: int): (n: string)
    ensures |n| > |stem| + 1 + |mode| + 4
    ensures n[..|stem|] == stem && n[|stem|] == '-' && n[|stem| + 1..|stem| + 1 + |mode|] == mode
    ensures n[|n| - 4..] == ".avi"
  {
    var tail := SettingsTail(count, length, percent);
    NameParts(stem, mode, tail);
    stem + "-" + mode + "-f" + tail
  }

  /** Where the stem, the mode and the `.avi` ending sit in a name built from them. */
  lemma NameParts(stem: string, mode: string, tail: string)
    requires |tail| >= 4 && tail[|tail| - 4..] == ".avi"
    ensures var n := stem + "-" + mode + "-f" + tail;
      && |n| > |stem| + 1 + |mode| + 4
      && n[..|stem|] == stem && n[|stem|] == '-' && n[|stem| + 1..|stem| + 1 + |mode|] == mode
      && n[|n| - 4..] == ".avi"
  {
    var n := stem + "-" + mode + "-f" + tail;
    assert n[|n| - 4..] == tail[|tail| - 4..];
  }

  /** The part of the name after `-f`: `<count>-l<length>-a<percent>.avi`. */
  function SettingsTail(count: int, length: int, percent: int): (t: string)
    ensures |t| >= 4 && t[|t| - 4..] == ".avi"
  {
    var t := IntToDecimal(count) + "-l" + IntToDecimal(length) + "-a" + IntToDecimal(percent) + ".avi";
    assert t[|t| - 4..] == ".avi";
    t
  }

  /** A decimal numeral has only digits and a minus sign. */
  lemma DecimalLacks(i: int, c: char)
    requires c != '-' && !IsDigit(c)
    ensures c !in IntToDecimal(i)
  {
    var s := IntToDecimal(i);
    if i < 0 {
      assert c !in s[1..];
      assert s == [s[0]] + s[1..];
    }
  }

  /** Two strings that agree around the first `m` of each agree on both sides of it. */
  lemma MarkerSplit(x1: string, y1: string, x2: string, y2: string, m: char)
    requires m !in x1 && m !in x2
    requires x1 + [m] + y1 == x2 + [m] + y2
    ensures x1 == x2 && y1 == y2
  {
    var s := x1 + [m] + y1;
    assert forall j :: 0 <= j < |x1| ==> s[j] == x1[j];
    assert forall j :: 0 <= j < |x2| ==> s[j] == x2[j];
    assert s[|x1|] == m && s[|x2|] == m;
    assert |x1| == |x2|;
    assert x1 == s[..|x1|] && x2 == s[..|x2|];
    assert y1 == s[|x1| + 1..] && y2 == (x2 + [m] + y2)[|x2| + 1..];
  }

  /** Two strings that agree around the first `-m` of each, with `m` not in front of it, agree on both sides. */
  lemma CutAtFlag(a1: string, r1: string, a2: string, r2: string, m: char)
    requires m != '-' && m !in a1 && m !in a2
    requires a1 + ['-', m] + r1 == a2 + ['-', m] + r2
    ensures a1 == a2 && r1 == r2
  {
    assert a1 + ['-', m] + r1 == (a1 + "-") + [m] + r1;
    assert a2 + ['-', m] + r2 == (a2 + "-") + [m] + r2;
    MarkerSplit(a1 + "-", r1, a2 + "-", r2, m);
    assert a1 == (a1 + "-")[..|a1|] && a2 == (a2 + "-")[..|a2|];
  }

  /** `<a>-l<b>-a<d>.avi` gives back `a`, `b` and `d` when `a` has no `l` and `b` no `a`. */
  lemma SettingsFields(a1: string, b1: string, d1: string, a2: string, b2: string, d2: string)
    requires 'l' !in a1 && 'l' !in a2 && 'a' !in b1 && 'a' !in b2
    requires a1 + "-l" + b1 + "-a" + d1 + ".avi" == a2 + "-l" + b2 + "-a" + d2 + ".avi"
    ensures a1 == a2 && b1 == b2 && d1 == d2
  {
    var r1, r2 := b1 + "-a" + d1 + ".avi", b2 + "-a" + d2 + ".avi";
    assert a1 + "-l" + b1 + "-a" + d1 + ".avi" == a1 + ['-', 'l'] + r1;
    assert a2 + "-l" + b2 + "-a" + d2 + ".avi" == a2 + ['-', 'l'] + r2;
    CutAtFlag(a1, r1, a2, r2, 'l');
    assert r1 == b1 + ['-', 'a'] + (d1 + ".avi");
    assert r2 == b2 + ['-', 'a'] + (d2 + ".avi");
    CutAtFlag(b1, d1 + ".avi", b2, d2 + ".avi", 'a');
    assert d1 == (d1 + ".avi")[..|d1|] && d2 == (d2 + ".avi")[..|d2|];
  }

  /** The settings can be read back from the tail of the name. */
  lemma SettingsTailInjective(c1: int, l1: int, p1: int, c2: int, l2: int, p2: int)
    requires SettingsTail(c1, l1, p1) == SettingsTail(c2, l2, p2)
    ensures c1 == c2 && l1 == l2 && p1 == p2
  {
    DecimalLacks(c1, 'l');
    DecimalLacks(c2, 'l');
    DecimalLacks(l1, 'a');
    DecimalLacks(l2, 'a');
    SettingsFields(IntToDecimal(c1), IntToDecimal(l1), IntToDecimal(p1),
                   IntToDecimal(c2), IntToDecimal(l2), IntToDecimal(p2));
    IntToDecimalInjective(c1, c2);
    IntToDecimalInjective(l1, l2);
    IntToDecimalInjective(p1, p2);
  }

  /** For one input and mode, different settings never give the same name. */
  lemma OutputNameInjective(stem: string, mode: string, c1: int, l1: int, p1: int, c2: int, l2: int, p2: int)
    requires OutputName(stem, mode, c1, l1, p1) == OutputName(stem, mode, c2, l2, p2)
    ensures c1 == c2 && l1 == l2 && p1 == p2
  {
    var prefix := stem + "-" + mode + "-f";
    var n1, n2 := OutputName(stem, mode, c1, l1, p1), OutputName(stem, mode, c2, l2, p2);
    assert SettingsTail(c1, l1, p1) == n1[|prefix|..];
    assert SettingsTail(c2, l2, p2) == n2[|prefix|..];
    SettingsTailInjective(c1, l1, p1, c2, l2, p2);
  }

  /** The name is a valid final component exactly when the mode holds no `/`. */
  lemma OutputNameValid(stem: string, mode: string, count: int, length: int, percent: int)
    requires '/' !in stem
    ensures ValidName(OutputName(stem, mode, count, length, percent)) <==> '/' !in mode
  {
    TailHasNoSlash(count, length, percent);
    var tail := SettingsTail(count, length, percent);
    assert '/' !in "-" && '/' !in "-f";
    assert OutputName(stem, mode, count, length, percent) == stem + "-" + mode + "-f" + tail;
  }

  lemma TailHasNoSlash(count: int, length: int, percent: int)
    ensures '/' !in SettingsTail(count, length, percent)
  {
    DecimalLacks(count, '/');
    DecimalLacks(length, '/');
    DecimalLacks(percent, '/');
    assert '/' !in "-l" && '/' !in "-a" && '/' !in ".avi";
  }

  /**
   * `_compute_output_path`: the input's directory, and the name built from
   * its stem, the mode, both counts and the clamped percentage.
   */
  function ComputeOutputPath(filePath: string, mode: string, count: int, length: int, aggPercent: int)
    : (r: Result<string, PathError>)
    ensures r.Ok? <==> Name(filePath) != "" && '/' !in mode
    ensures r.Ok? ==>
      && Dir(r.value) == Dir(filePath)
      && Name(r.value) == OutputName(Stem(Name(filePath)), mode, count, length, ClampPercent(aggPercent))
  {
    var stem := Stem(Name(filePath));
    StemSuffix(Name(filePath));
    OutputNameValid(stem, mode, count, length, ClampPercent(aggPercent));
    WithName(filePath, OutputName(stem, mode, count, length, ClampPercent(aggPercent)))
  }

  /** The percentage written into the name is always in [0, 100]. */
  lemma OutputPercentInRange(filePath: string, mode: string, count: int, length: int, aggPercent: int)
    requires ComputeOutputPath(filePath, mode, count, length, aggPercent).Ok?
    ensures exists p :: (0 <= p <= 100 &&
      Name(ComputeOutputPath(filePath, mode, count, length, aggPercent).value)
        == OutputName(Stem(Name(filePath)), mode, count, length, p))
  {
    var p := ClampPercent(aggPercent);
    assert 0 <= p <= 100;
  }

  /** Every mode the menu offers gives an output path for every input that has a name. */
  lemma MenuModesGiveOutput(filePath: string, i: nat, count: int, length: int, aggPercent: int)
    requires i < |MODES| && Name(filePath) != ""
    ensures ComputeOutputPath(filePath, MODES[i], count, length, aggPercent).Ok?
  {
    assert forall j :: 0 <= j < |MODES| ==> forall k :: 0 <= k < |MODES[j]| ==> 'a' <= MODES[j][k] <= 'z';
  }

  /** `int(x)` on a float: truncation toward zero. */
  function Trunc(v: real): (t: int)
    ensures v >= 0.0 ==> t as real <= v < t as real + 1.0
    ensures v < 0.0 ==> t as real - 1.0 < v <= t as real
  {
    if v >= 0.0 then v.Floor else -((-v).Floor)
  }

  lemma TruncMonotone(v: real, w: real)
    requires v <= w
    ensures Trunc(v) <= Trunc(w)
  {
  }

  /** `max(1, int(float(value)))`, then at most 12: what both slider handlers store. */
  function ClampSlider(v: real): (n: int)
    ensures 1 <= n <= 12
    ensures 1 <= Trunc(v) <= 12 ==> n == Trunc(v)
    ensures Trunc(v) < 1 ==> n == 1
    ensures Trunc(v) > 12 ==> n == 12
  {
    var n := if Trunc(v) < 1 then 1 else Trunc(v);
    if n > 12 then 12 else n
  }

  /** A whole number already in range is stored unchanged. */
  lemma ClampSliderKeeps(k: int)
    requires 1 <= k <= 12
    ensures ClampSlider(k as real) == k
  {
  }

  /** A second clamp changes nothing. */
  lemma ClampSliderIdempotent(v: real)
    ensures ClampSlider(ClampSlider(v) as real) == ClampSlider(v)
  {
    ClampSliderKeeps(ClampSlider(v));
  }

  /** Moving the slider further never stores a smaller value. */
  lemma ClampSliderMonotone(v: real, w: real)
    requires v <= w
    ensures ClampSlider(v) <= ClampSlider(w)
  {
    TruncMonotone(v, w);
  }

  /** The aggressiveness slider's value as the two texts the core uses: `f"{x:.2f}"` and `round(x * 100)`. */
  datatype Aggressiveness = Aggressiveness(text: string, percent: int)

  /** The value following the first flag `flag`, reading the list as flag/value pairs. */
  function FlagValue(args: seq<string>, flag: string): Option<string>
    decreases |args|
  {
    if |args| < 2 then None
    else if args[0] == flag then Some(args[1])
    else FlagValue(args[2..], flag)
  }

  /** A flag/value pair in front answers for its own flag and passes every other one on. */
  lemma FlagValuePair(f: string, v: string, rest: seq<string>, flag: string)
    ensures FlagValue([f, v] + rest, flag) == if f == flag then Some(v) else FlagValue(rest, flag)
  {
    assert ([f, v] + rest)[2..] == rest;
  }

  /**
   * The glitch engine's command line, in the order `_build_args` writes it:
   * twelve arguments, or fourteen with audio, starting with the input path
   * and ending with the first-frame flag.
   */
  function CliArgs(inputPath: string, mode: string, freq: int, length: int, aggText: string,
                   audio: bool, firstFrame: bool): (args: seq<string>)
    ensures |args| == if audio then 14 else 12
    ensures args[0] == "-i" && args[1] == inputPath && args[|args| - 2] == "-ff"
  {
    ["-i", inputPath, "-m", mode, "-c", IntToDecimal(freq), "-n", IntToDecimal(length), "-k", aggText]
    + (if audio then ["-a", "1"] else [])
    + ["-ff", if firstFrame then "1" else "0"]
  }

  /** Ten fixed arguments first, `-a 1` next only with audio, and `-ff` with its flag last. */
  lemma ArgsLayout(inputPath: string, mode: string, freq: int, length: int, aggText: string,
                   audio: bool, firstFrame: bool)
    ensures var args := CliArgs(inputPath, mode, freq, length, aggText, audio, firstFrame);
      && |args| == (if audio then 14 else 12)
      && args[..10] == ["-i", inputPath, "-m", mode, "-c", IntToDecimal(freq),
                        "-n", IntToDecimal(length), "-k", aggText]
      && (audio ==> args[10..12] == ["-a", "1"])
      && args[|args| - 2..] == ["-ff", if firstFrame then "1" else "0"]
  {
  }

  /** The value the engine should see for each flag: the settings, `-a` only with audio, nothing else. */
  function ExpectedValue(flag: string, inputPath: string, mode: string, freq: int, length: int,
                         aggText: string, audio: bool, firstFrame: bool): Option<string>
  {
    if flag == "-i" then Some(inputPath)
    else if flag == "-m" then Some(mode)
    else if flag == "-c" then Some(IntToDecimal(freq))
    else if flag == "-n" then Some(IntToDecimal(length))
    else if flag == "-k" then Some(aggText)
    else if flag == "-a" && audio then Some("1")
    else if flag == "-ff" then Some(if firstFrame then "1" else "0")
    else None
  }

  /** Reading the command line back flag by flag gives every setting, and no flag is there that should not be. */
  lemma ArgsRoundTrip(inputPath: string, mode: string, freq: int, length: int, aggText: string,
                      audio: bool, firstFrame: bool, flag: string)
    ensures FlagValue(CliArgs(inputPath, mode, freq, length, aggText, audio, firstFrame), flag)
         == ExpectedValue(flag, inputPath, mode, freq, length, aggText, audio, firstFrame)
  {
    var args := CliArgs(inputPath, mode, freq, length, aggText, audio, firstFrame);
    var ff := ["-ff", if firstFrame then "1" else "0"];
    var tail := (if audio then ["-a", "1"] else []) + ff;
    var k := ["-k", aggText] + tail;
    var n := ["-n", IntToDecimal(length)] + k;
    var c := ["-c", IntToDecimal(freq)] + n;
    var m := ["-m", mode] + c;
    assert args == ["-i", inputPath] + m;
    FlagValuePair("-i", inputPath, m, flag);
    if flag != "-i" {
      FlagValuePair("-m", mode, c, flag);
      if flag != "-m" {
        FlagValuePair("-c", IntToDecimal(freq), n, flag);
        if flag != "-c" {
          FlagValuePair("-n", IntToDecimal(length), k, flag);
          if flag != "-n" {
            FlagValuePair("-k", aggText, tail, flag);
            if flag != "-k" {
              FlagsAfterSettings(audio, ff, flag);
            }
          }
        }
      }
    }
  }

  /** The optional `-a 1` and the closing `-ff` pair. */
  lemma FlagsAfterSettings(audio: bool, ff: seq<string>, flag: string)
    requires |ff| == 2 && ff[0] == "-ff"
    ensures FlagValue((if audio then ["-a", "1"] else []) + ff, flag)
         == if flag == "-a" && audio then Some("1") else if flag == "-ff" then Some(ff[1]) else None
  {
    if audio {
      FlagValuePair("-a", "1", ff, flag);
    } else {
      assert [] + ff == ff;
    }
    assert ff == [ff[0], ff[1]] + [];
    FlagValuePair(ff[0], ff[1], [], flag);
  }

  /** `c.lower()` for a letter `A`..`Z`; every other character is kept. */
  function LowerChar(c: char): char {
    if 'A' <= c <= 'Z' then (c as int + 32) as char else c
  }

  /** `s.lower()`, letter by letter. */
  function Lower(s: string): string {
    seq(|s|, i requires 0 <= i < |s| => LowerChar(s[i]))
  }

  /**
   * `path.suffix.lower() == ".avi"`, the check `_set_selected_path` makes:
   * a dot, then `a`, `v` and `i`, each in either case.
   */
  function IsAviSuffix(suffix: string): (ok: bool)
    ensures ok <==>
      && |suffix| == 4 && suffix[0] == '.'
      && (suffix[1] == 'a' || suffix[1] == 'A')
      && (suffix[2] == 'v' || suffix[2] == 'V')
      && (suffix[3] == 'i' || suffix[3] == 'I')
  {
    var low := Lower(suffix);
    assert |low| == 4 ==>
      low[0] == LowerChar(suffix[0]) && low[1] == LowerChar(suffix[1])
      && low[2] == LowerChar(suffix[2]) && low[3] == LowerChar(suffix[3]);
    low == ".avi"
  }

  /** The settings the Tomato window holds: its Tk variables. */
  class TomatoApp {
    var mode: string
    var freq: int
    var length: int
    var agg: Aggressiveness
    var audio: bool
    var firstFrame: bool
    /** The selected input file, if an `.avi` file was chosen. */
    var selected: Option<string>

    /** Both sliders hold a value in [1, 12]. */
    predicate SlidersInRange()
      reads this
    {
      1 <= freq <= 12 && 1 <= length <= 12
    }

    /** The window's initial settings. */
    constructor ()
      ensures mode == "void" && freq == 4 && length == 4
      ensures agg == Aggressiveness("0.50", 50)
      ensures !audio && firstFrame && selected.None?
      ensures SlidersInRange()
    {
      mode := "void";
      freq := 4;
      length := 4;
      agg := Aggressiveness("0.50", 50);
      audio := false;
      firstFrame := true;
      selected := None;
    }

    /** `_on_count_change(value)`. */
    method OnCountChange(value: real)
      modifies this`freq
      ensures freq == ClampSlider(value)
      ensures 1 <= freq <= 12
      ensures old(SlidersInRange()) ==> SlidersInRange()
    {
      var count := Trunc(value);
      if count < 1 {
        count := 1;
      }
      if count > 12 {
        count := 12;
      }
      freq := count;
    }

    /** `_on_length_change(value)`. */
    method OnLengthChange(value: real)
      modifies this`length
      ensures length == ClampSlider(value)
      ensures 1 <= length <= 12
      ensures old(SlidersInRange()) ==> SlidersInRange()
    {
      var n := Trunc(value);
      if n < 1 {
        n := 1;
      }
      if n > 12 {
        n := 12;
      }
      length := n;
    }

    /** `_default_output_path(inputPath)`, from the current settings. */
    function DefaultOutputPath(inputPath: string): (r: Result<string, PathError>)
      reads this
      ensures r == ComputeOutputPath(inputPath, mode, freq, length, agg.percent)
      ensures r.Ok? ==> Dir(r.value) == Dir(inputPath)
    {
      ComputeOutputPath(inputPath, mode, freq, length, agg.percent)
    }

    /** `_build_args(inputPath)`: the list, then `-a 1` with audio, then `-ff` and the first-frame flag. */
    method BuildArgs(inputPath: string) returns (args: seq<string>)
      ensures args == CliArgs(inputPath, mode, freq, length, agg.text, audio, firstFrame)
      ensures SlidersInRange() ==>
        && args[4] == "-c" && AllDigits(args[5]) && 1 <= DecimalValue(args[5]) <= 12
        && args[6] == "-n" && AllDigits(args[7]) && 1 <= DecimalValue(args[7]) <= 12
    {
      args := ["-i", inputPath, "-m", mode, "-c", IntToDecimal(freq), "-n", IntToDecimal(length), "-k", agg.text];
      if audio {
        args := args + ["-a", "1"];
      }
      if firstFrame {
        args := args + ["-ff", "1"];
      } else {
        args := args + ["-ff", "0"];
      }
      ArgsLayout(inputPath, mode, freq, length, agg.text, audio, firstFrame);
    }

    /** `_set_selected_path(path)`: an `.avi` file is taken, anything else clears the selection. */
    method SetSelectedPath(path: string)
      modifies this`selected
      ensures selected == if IsAviSuffix(Suffix(Name(path))) then Some(path) else None
    {
      if !IsAviSuffix(Suffix(Name(path))) {
        selected := None;
        return;
      }
      selected := Some(path);
    }

    /** `_on_drop`: strip the dropped text, parse it, and select the first path if there is one. */
    method OnDrop(raw: string)
      modifies this`selected
      ensures var tokens := DropParser.DropTokens(raw);
        if tokens == [] then selected == old(selected)
        else selected == if IsAviSuffix(Suffix(Name(tokens[0]))) then Some(tokens[0]) else None
    {
      var rawPath := Strip(raw);
      var paths := DropParser.ParseDropPaths(rawPath);
      DropParser.DropTokensOfStripped(raw);
      if paths != [] {
        SetSelectedPath(paths[0]);
      }
    }
  }
}
