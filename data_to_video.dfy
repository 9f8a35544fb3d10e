/**
 * The arithmetic of the Data→Video window in `app.py`: the frame geometry
 * chosen from an aspect ratio and a base width, the estimated duration shown
 * before converting, the name of the video written next to the input, and
 * the rule that picks one path out of a drag-and-drop string.
 */
module DataToVideo {
  import opened Results
  import opened Strings
  import opened Paths
  import opened FrameEncoder

  /** Frames per second of every video written. */
  const FPS: nat := 1

  /** The aspect ratios the menu offers, as (width ratio, height ratio). */
  const ASPECT_RATIOS: map<string, (nat, nat)> :=
    map["1:1" := (1, 1), "4:3" := (4, 3), "16:9" := (16, 9), "9:16" := (9, 16)]

  /** The base widths the menu offers. */
  const BASE_SIZES: seq<nat> := [256, 512, 1024]

  /** `ASPECT_RATIOS.get(aspect, (1, 1))`: an unknown name is taken as square. */
  function RatioOf(aspect: string): (ratio: (nat, nat))
    ensures ratio.0 > 0 && ratio.1 > 0
    ensures aspect in ASPECT_RATIOS ==> ratio == ASPECT_RATIOS[aspect]
    ensures aspect !in ASPECT_RATIOS ==> ratio == (1, 1)
  {
    if aspect in ASPECT_RATIOS then ASPECT_RATIOS[aspect] else (1, 1)
  }

  /** `r` is an integer nearest to n/d: |n/d - r| <= 1/2. */
  predicate Nearest(n: nat, d: nat, r: nat) {
    2 * n <= 2 * (r * d) + d && 2 * (r * d) <= 2 * n + d
  }

  /** n/d lies exactly half-way between two integers. */
  predicate IsTie(n: nat, d: nat, r: nat) {
    2 * n == 2 * (r * d) + d || 2 * (r * d) == 2 * n + d
  }

  /** Python's `round(n / d)`: to the nearest integer, a tie to the even one. */
  function RoundHalfEven(n: nat, d: nat): (r: nat)
    requires d > 0
    ensures Nearest(n, d, r)
    ensures IsTie(n, d, r) ==> r % 2 == 0
  {
    var q, rem := n / d, n % d;
    assert n == q * d + rem;
    assert (q + 1) * d == q * d + d;
    if 2 * rem < d then q
    else if 2 * rem > d then q + 1
    else if q % 2 == 0 then q
    else q + 1
  }

  /** Two different nearest integers are neighbours with n/d half-way between them. */
  lemma NearestNeighbours(n: nat, d: nat, a: nat, b: nat)
    requires d > 0 && a < b && Nearest(n, d, a) && Nearest(n, d, b)
    ensures b == a + 1 && IsTie(n, d, a) && IsTie(n, d, b)
  {
    var ad, bd := a * d, b * d;
    MulMono(a + 1, b, d);
    assert (a + 1) * d == ad + d;
    if b > a + 1 {
      MulMono(a + 2, b, d);
      assert false;
    }
  }

  /** The nearest integer is unique except at a tie, and the tie rule settles that one. */
  lemma RoundHalfEvenUnique(n: nat, d: nat, r: nat)
    requires d > 0 && Nearest(n, d, r)
    requires IsTie(n, d, r) ==> r % 2 == 0
    ensures RoundHalfEven(n, d) == r
  {
    var s := RoundHalfEven(n, d);
    if s < r {
      NearestNeighbours(n, d, s, r);
    } else if r < s {
      NearestNeighbours(n, d, r, s);
    }
  }

  datatype Resolution = Resolution(width: nat, height: nat)

  /**
   * `_current_resolution`: the base width, and the height
   * `max(1, round(base * heightRatio / widthRatio))`.
   */
  function CurrentResolution(aspect: string, base: nat): (res: Resolution)
    ensures res.width == base && res.height >= 1
    ensures var (wr, hr) := RatioOf(aspect);
      && (res.height == 1 <==> 2 * base * hr < 3 * wr)
      && (res.height > 1 ==> Nearest(base * hr, wr, res.height))
      && (res.height > 1 && IsTie(base * hr, wr, res.height) ==> res.height % 2 == 0)
  {
    var (wr, hr) := RatioOf(aspect);
    var h := RoundHalfEven(base * hr, wr);
    if h < 1 then Resolution(base, 1) else Resolution(base, h)
  }

  lemma Resolution16x9At512()
    ensures CurrentResolution("16:9", 512) == Resolution(512, 288)
  {
    RoundHalfEvenUnique(512 * 9, 16, 288);
  }

  lemma Resolution1x1At256()
    ensures CurrentResolution("1:1", 256) == Resolution(256, 256)
  {
    RoundHalfEvenUnique(256, 1, 256);
  }

  /** 512 * 16 / 9 is 910.2, which rounds down. */
  lemma Resolution9x16At512()
    ensures CurrentResolution("9:16", 512) == Resolution(512, 910)
  {
    RoundHalfEvenUnique(512 * 16, 9, 910);
  }

  lemma Resolution4x3At1024()
    ensures CurrentResolution("4:3", 1024) == Resolution(1024, 768)
  {
    RoundHalfEvenUnique(1024 * 3, 4, 768);
  }

  /** An aspect name the table does not hold gives a square frame. */
  lemma UnknownAspectIsSquare(aspect: string, base: nat)
    requires aspect !in ASPECT_RATIOS && base > 0
    ensures CurrentResolution(aspect, base) == Resolution(base, base)
  {
    RoundHalfEvenUnique(base, 1, base);
  }

  /** Every aspect and base width the menus offer gives a frame of at least one byte. */
  lemma MenuFramesNonEmpty(aspect: string, base: nat)
    requires base in BASE_SIZES
    ensures var res := CurrentResolution(aspect, base); FrameSize(res.width, res.height) > 0
  {
  }

  /**
   * The duration line: nothing to estimate, a frame count and the seconds it
   * plays, or the `ZeroDivisionError` a frame of no bytes raises.
   */
  datatype Hint = NoEstimate | Estimate(frames: nat, seconds: real) | DivisionByZero

  /**
   * `_update_duration_hint`, given the selected file's size (`None` when no
   * file is selected or it does not exist): `max(1, ceil(size / frameSize))`
   * frames, played at `FPS` frames a second.
   */
  function DurationHint(fileSize: Option<nat>, aspect: string, base: nat): (h: Hint)
    ensures h.NoEstimate? <==> fileSize.None?
    ensures h.DivisionByZero? <==> fileSize.Some? && base == 0
    ensures h.Estimate? ==>
      var res := CurrentResolution(aspect, base);
      var frameSize := FrameSize(res.width, res.height);
      && frameSize > 0
      && h.frames >= 1
      && fileSize.value <= h.frames * frameSize
      && (h.frames == 1 || (h.frames - 1) * frameSize < fileSize.value)
      && h.seconds == h.frames as real
      && h.seconds >= 1.0
  {
    match fileSize
    case None => NoEstimate
    case Some(size) =>
      var res := CurrentResolution(aspect, base);
      var frameSize := FrameSize(res.width, res.height);
      FrameSizeZero(res.width, res.height);
      if frameSize == 0 then DivisionByZero
      else
        var frames := FrameCount(size, frameSize);
        Estimate(frames, frames as real / FPS as real)
  }

  /** A frame at least one row high has no bytes exactly when it has no width. */
  lemma FrameSizeZero(width: nat, height: nat)
    requires height >= 1
    ensures FrameSize(width, height) == 0 <==> width == 0
  {
    MulMono(1, height, width);
  }

  /** The estimate counts exactly the frames `bytes_to_frames` produces for that file. */
  lemma HintMatchesEncoder(data: seq<Byte>, aspect: string, base: nat, frames: seq<seq<Byte>>)
    requires var res := CurrentResolution(aspect, base);
      IsEncodingOf(frames, data, FrameSize(res.width, res.height))
    ensures DurationHint(Some(|data|), aspect, base) == Estimate(|frames|, |frames| as real)
  {
  }

  /** What `convert_file_to_video` appends to the stem of the input's name. */
  const VIDEO_SUFFIX: string := "_datamosh.mp4"

  /** A stem with the video suffix after it is a name `with_name` accepts. */
  lemma VideoNameValid(stem: string)
    requires '/' !in stem
    ensures ValidName(stem + VIDEO_SUFFIX)
  {
    assert '/' !in VIDEO_SUFFIX;
    assert |stem + VIDEO_SUFFIX| > 1;
  }

  /** `convert_file_to_video`'s output: `with_suffix("")`, then the name plus `_datamosh.mp4`. */
  function ConvertOutputPath(p: string): (r: Result<string, PathError>)
    ensures r.Ok? <==> Name(p) != ""
    ensures r.Ok? ==> Dir(r.value) == Dir(p) && Name(r.value) == Stem(Name(p)) + VIDEO_SUFFIX
  {
    match WithoutSuffix(p)
    case Err(e) => Err(e)
    case Ok(q) =>
      StemSuffix(Name(p));
      VideoNameValid(Name(q));
      WithName(q, Name(q) + VIDEO_SUFFIX)
  }

  /** The output path spelled out: the directory, the stem, then `_datamosh.mp4`. */
  lemma ConvertOutputPathIs(p: string)
    requires Name(p) != ""
    ensures ConvertOutputPath(p) == Ok(Dir(p) + Stem(Name(p)) + VIDEO_SUFFIX)
  {
    var r := ConvertOutputPath(p).value;
    DirName(r);
    assert r == Dir(p) + (Stem(Name(p)) + VIDEO_SUFFIX);
    assert Dir(p) + (Stem(Name(p)) + VIDEO_SUFFIX) == Dir(p) + Stem(Name(p)) + VIDEO_SUFFIX;
  }

  /**
   * In any directory, `stem.ext` becomes `stem_datamosh.mp4` when `ext` holds
   * no dot: `report.bin` gives `report_datamosh.mp4`, and `archive.tar.gz`
   * loses only its last suffix, giving `archive.tar_datamosh.mp4`.
   */
  lemma ConvertDotted(dir: string, stem: string, ext: string)
    requires dir == [] || dir[|dir| - 1] == '/'
    requires stem != "" && ext != "" && '.' !in ext && '/' !in stem && '/' !in ext
    ensures ConvertOutputPath(dir + (stem + "." + ext)) == Ok(dir + (stem + VIDEO_SUFFIX))
  {
    var p := dir + (stem + "." + ext);
    DirNameOfJoin(dir, stem + "." + ext);
    StemOfDotted(stem, ext);
    ConvertOutputPathIs(p);
  }

  /** In any directory, `.rest` becomes `.rest_datamosh.mp4`: a leading dot does not start a suffix. */
  lemma ConvertDotFile(dir: string, rest: string)
    requires dir == [] || dir[|dir| - 1] == '/'
    requires '.' !in rest && '/' !in rest
    ensures ConvertOutputPath(dir + ("." + rest)) == Ok(dir + ("." + rest + VIDEO_SUFFIX))
  {
    DirNameOfJoin(dir, "." + rest);
    StemOfDotFile(rest);
    ConvertOutputPathIs(dir + ("." + rest));
  }

  /**
   * `_on_drop`'s choice of path: strip braces from both ends, and keep what
   * comes before the first space, if that is not empty.
   */
  function FirstDropPath(raw: string): (r: Option<string>)
    ensures var cleaned := Trim(raw, IsBrace);
      && (r.None? <==> cleaned == [] || cleaned[0] == ' ')
      && (r.Some? ==>
        && |r.value| <= |cleaned|
        && r.value == cleaned[..|r.value|]
        && ' ' !in r.value
        && (|r.value| == |cleaned| || cleaned[|r.value|] == ' '))
  {
    var cleaned := Trim(raw, IsBrace);
    var first := Split(cleaned, ' ')[0];
    SplitFirstPiece(cleaned, ' ');
    if first != "" then Some(first) else None
  }
}
