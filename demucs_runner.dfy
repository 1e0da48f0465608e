/** The Demucs stem-separation wrapper: the command it launches, the
    progress percentages it reads off Demucs's stderr, and the check of the
    stem files Demucs left behind. The filesystem and the subprocess are
    inputs: whether the audio file exists, whether the output directory
    could be made, how the process ended, and the set of paths that exist
    afterwards. */
module DemucsRunner {
  import opened Wrappers
  import opened Text
  import opened Paths
  import opened PyFloat

  // ---------------------------------------------------------------------
  // The command line (lines 53-59)
  // ---------------------------------------------------------------------

  /** `[python, "-m", "demucs", "--mp3", "-n", model, "-o", outputDir, audioPath]` */
  function DemucsCommand(python: string, model: string, outputDir: string, audioPath: string): (cmd: seq<string>)
    ensures |cmd| == 9 && cmd[..3] == [python, "-m", "demucs"]
  {
    [python, "-m", "demucs", "--mp3", "-n", model, "-o", outputDir, audioPath]
  }

  /** An argument that a command-line parser takes for an option. */
  predicate LooksLikeOption(a: string) {
    |a| > 1 && a[0] == '-'
  }

  /** What Demucs's command-line parser makes of its arguments. */
  datatype Invocation = Invocation(mp3: bool, model: Option<string>, outputDir: Option<string>, tracks: seq<string>)

  const NoOptions: Invocation := Invocation(false, None, None, [])

  /** A reference reading of the arguments after `-m demucs`: `--mp3` is a
      switch, `-n` and `-o` take the next argument as their value, anything
      else not looking like an option is a track. `None` is a usage error. */
  function ReadArgs(args: seq<string>, acc: Invocation): (r: Option<Invocation>)
    ensures r.Some? ==> |acc.tracks| <= |r.value.tracks|
    decreases |args|
  {
    if args == [] then Some(acc)
    else if args[0] == "--mp3" then ReadArgs(args[1..], acc.(mp3 := true))
    else if args[0] == "-n" || args[0] == "-o" then
      if |args| < 2 || LooksLikeOption(args[1]) then None
      else if args[0] == "-n" then ReadArgs(args[2..], acc.(model := Some(args[1])))
      else ReadArgs(args[2..], acc.(outputDir := Some(args[1])))
    else if LooksLikeOption(args[0]) then None
    else ReadArgs(args[1..], acc.(tracks := acc.tracks + [args[0]]))
  }

  /** The command runs the `demucs` module with MP3 output, the given model
      and output directory, on exactly the given audio file, as long as none
      of the three values looks like an option. */
  lemma CommandReadsBack(python: string, model: string, outputDir: string, audioPath: string)
    requires !LooksLikeOption(model) && !LooksLikeOption(outputDir) && !LooksLikeOption(audioPath)
    ensures var cmd := DemucsCommand(python, model, outputDir, audioPath);
            cmd[..3] == [python, "-m", "demucs"]
            && ReadArgs(cmd[3..], NoOptions) == Some(Invocation(true, Some(model), Some(outputDir), [audioPath]))
  {
    var args := DemucsCommand(python, model, outputDir, audioPath)[3..];
    var last := [audioPath];
    var tail := ["-o", outputDir] + last;
    var mid := ["-n", model] + tail;
    assert args == ["--mp3"] + mid;
    ReadsSwitch(mid, NoOptions);
    var acc1 := NoOptions.(mp3 := true);
    ReadsOptionValue("-n", model, tail, acc1);
    var acc2 := acc1.(model := Some(model));
    ReadsOptionValue("-o", outputDir, last, acc2);
    var acc3 := acc2.(outputDir := Some(outputDir));
    ReadsTrack(audioPath, acc3);
    assert acc3.(tracks := acc3.tracks + [audioPath]) == Invocation(true, Some(model), Some(outputDir), [audioPath]);
  }

  lemma ReadsSwitch(rest: seq<string>, acc: Invocation)
    ensures ReadArgs(["--mp3"] + rest, acc) == ReadArgs(rest, acc.(mp3 := true))
  {
    assert (["--mp3"] + rest)[1..] == rest;
  }

  lemma ReadsOptionValue(flag: string, v: string, rest: seq<string>, acc: Invocation)
    requires flag == "-n" || flag == "-o"
    requires !LooksLikeOption(v)
    ensures ReadArgs([flag, v] + rest, acc) ==
              ReadArgs(rest, if flag == "-n" then acc.(model := Some(v)) else acc.(outputDir := Some(v)))
  {
    assert ([flag, v] + rest)[2..] == rest;
  }

  lemma ReadsTrack(a: string, acc: Invocation)
    requires !LooksLikeOption(a)
    ensures ReadArgs([a], acc) == Some(acc.(tracks := acc.tracks + [a]))
  {
    assert LooksLikeOption("--mp3") && LooksLikeOption("-n") && LooksLikeOption("-o");
    assert [a][1..] == [];
  }

  // ---------------------------------------------------------------------
  // Progress parsing (lines 78-93)
  // ---------------------------------------------------------------------

  /** What the source does with one stderr line. */
  datatype LineOutcome =
    | NoPercent          // no `%` in the line: not looked at
    | Skipped            // `ValueError` or `IndexError`, caught and ignored
    | Emitted(percent: int)
    | Raised             // `OverflowError` from `int(float("inf"))`, not caught

  /** The last whitespace-separated word of the stripped text before the
      first `%`, or `None` where the source's lookup raises `IndexError`
      (nothing but whitespace before the first `%`). */
  function PercentWord(line: string): (w: Option<string>)
    ensures w.Some? ==> w.value != [] && HasNoSpace(w.value)
  {
    LastWord(Strip(Split(line, '%')[0]))
  }

  /** For a line with a `%`, the word read is the final whitespace-separated
      word of the text before the first `%` (so `"45 %"` reads `45`), and
      there is none exactly when that text is blank. */
  lemma PercentWordOfHead(line: string)
    requires '%' in line
    ensures var head := Split(line, '%')[0];
            && '%' !in head && |head| < |line| && line[..|head|] == head && line[|head|] == '%'
            && (PercentWord(line).None? <==> AllSpace(head))
            && (PercentWord(line).Some? ==> exists j: nat :: FinalWordAt(head, j, PercentWord(line).value))
  {
    var head := Split(line, '%')[0];
    HeadOfSplit(line, '%');
    var r := Strip(head);
    StripIsInfix(head);
    AllSpaceInfix(head, Lead(head), r);
    if LastWord(r).Some? {
      LastWordIsLast(r);
      var j: nat :| FinalWordAt(r, j, LastWord(r).value);
      FinalWordInInfix(head, Lead(head), r, j, LastWord(r).value);
    }
  }

  /** The body of the stderr loop as written: the word before the first `%`
      is read with `float()` and truncated with `int()`. */
  function ProgressLineAsWritten(line: string): LineOutcome {
    if '%' !in line then NoPercent
    else
      match PercentWord(line)
      case None => Skipped
      case Some(w) =>
        match ParseFloat(w)
        case Finite(x) => Emitted(Trunc(x))
        case Infinite(_) => Raised
        case NotANumber => Skipped
        case Malformed => Skipped
  }

  /** The percentage a stderr line reports, with every line that does not
      yield one (including `inf%`) ignored. */
  function ProgressPercent(line: string): Option<int> {
    match ProgressLineAsWritten(line)
    case Emitted(p) => Some(p)
    case _ => None
  }

  /** The corrected reading differs from the code as written only on the
      lines where the latter raises; a percentage only ever comes from a
      line with a `%` and a word before it. */
  lemma CorrectionOnlyOnRaisingLines(line: string)
    ensures ProgressLineAsWritten(line) != Raised ==>
              (ProgressPercent(line).Some? <==> ProgressLineAsWritten(line).Emitted?)
    ensures ProgressLineAsWritten(line) == Raised ==> ProgressPercent(line).None?
    ensures ProgressPercent(line).Some? ==> '%' in line && PercentWord(line).Some?
  {
  }

  lemma {:induction false} TrimStartBeforeWord(pre: string, w: string)
    requires w == [] || !IsSpace(w[0])
    ensures TrimStart(pre + w) == TrimStart(pre) + w
  {
    if pre != [] {
      assert (pre + w)[1..] == pre[1..] + w;
      TrimStartBeforeWord(pre[1..], w);
    }
  }

  lemma {:induction false} TrailingWordAfterSpace(pre: string, w: string)
    requires HasNoSpace(w)
    requires pre == [] || IsSpace(pre[|pre| - 1])
    ensures TrailingWord(pre + w) == w
  {
    if w != [] {
      var n := |w| - 1;
      assert (pre + w)[..|pre + w| - 1] == pre + w[..n];
      TrailingWordAfterSpace(pre, w[..n]);
    }
  }

  /** Splitting at `%` gives first what precedes the first `%`. */
  lemma HeadBeforePercent(head: string, rest: string)
    requires '%' !in head
    ensures Split(head + "%" + rest, '%')[0] == head
  {
    assert head + "%" + rest == head + ['%'] + rest;
    SplitAround(head, rest, '%');
    SplitJoin([head], '%');
  }

  /** Stripping text that ends in a word only trims its front. */
  lemma StripBeforeWord(pre: string, w: string)
    requires w != [] && HasNoSpace(w)
    ensures Strip(pre + w) == TrimStart(pre) + w
  {
    TrimStartBeforeWord(pre, w);
    assert (pre + w)[|pre + w| - 1] == w[|w| - 1];
    StripCleanEnd(pre + w);
  }

  /** The last word of text that ends in a word after a space is that word. */
  lemma LastWordAfterSpace(pre: string, w: string)
    requires w != [] && HasNoSpace(w)
    requires pre == [] || IsSpace(pre[|pre| - 1])
    ensures LastWord(pre + w) == Some(w)
  {
    assert (pre + w)[|pre + w| - 1] == w[|w| - 1];
    assert TrimEnd(pre + w) == pre + w;
    TrailingWordAfterSpace(pre, w);
  }

  /** The word before the first `%` is the last whitespace-separated word
      there, whatever precedes it. */
  lemma WordBeforePercent(pre: string, w: string, rest: string)
    requires w != [] && HasNoSpace(w) && '%' !in pre + w
    requires pre == [] || IsSpace(pre[|pre| - 1])
    ensures PercentWord(pre + w + "%" + rest) == Some(w)
  {
    HeadBeforePercent(pre + w, rest);
    StripBeforeWord(pre, w);
    var t := TrimStart(pre);
    assert t == [] || IsSpace(t[|t| - 1]) by {
      if t != [] {
        assert t[|t| - 1] == pre[|pre| - 1];
      }
    }
    LastWordAfterSpace(t, w);
  }

  lemma PercentInLine(head: string, rest: string)
    ensures '%' in head + "%" + rest
  {
    assert (head + "%" + rest)[|head|] == '%';
  }

  /** A line holding `<word>%` reports what `float()` reads from the word,
      truncated toward zero; any other word yields nothing. */
  lemma PercentOfWord(pre: string, w: string, rest: string)
    requires w != [] && HasNoSpace(w) && '%' !in pre + w
    requires pre == [] || IsSpace(pre[|pre| - 1])
    ensures ProgressPercent(pre + w + "%" + rest) ==
              match ParseFloat(w)
              case Finite(x) => Some(Trunc(x))
              case _ => None
  {
    WordBeforePercent(pre, w, rest);
    PercentInLine(pre + w, rest);
  }

  /** As written, a word that `float()` reads as an infinity makes `int()`
      raise `OverflowError`, which the loop's handler does not catch: the
      whole run then fails. */
  lemma InfiniteWordRaises(pre: string, w: string, rest: string)
    requires w != [] && HasNoSpace(w) && '%' !in pre + w
    requires pre == [] || IsSpace(pre[|pre| - 1])
    requires ParseFloat(w).Infinite?
    ensures ProgressLineAsWritten(pre + w + "%" + rest) == Raised
    ensures ProgressPercent(pre + w + "%" + rest) == None
  {
    WordBeforePercent(pre, w, rest);
    PercentInLine(pre + w, rest);
  }

  /** The line `inf%` is one such line. */
  lemma InfPercentLine()
    ensures ProgressLineAsWritten("inf%") == Raised
    ensures ProgressPercent("inf%") == None
  {
    var w := "inf";
    assert Lower(w) == w by {
      assert Lower(w[2..]) == w[2..];
      assert Lower(w[1..]) == w[1..];
    }
    assert ParseFloat(w) == Infinite(false);
    assert HasNoSpace(w);
    assert '%' !in w;
    assert "" + w + "%" + "" == "inf%";
    InfiniteWordRaises("", w, "");
  }

  /** The percentages the progress bar prints read back as themselves. */
  lemma RenderedPercentReadsBack(pre: string, n: nat, rest: string)
    requires '%' !in pre && (pre == [] || IsSpace(pre[|pre| - 1]))
    ensures ProgressPercent(pre + NatString(n) + "%" + rest) == Some(n)
  {
    var w := NatString(n);
    DigitsArePlain(w);
    NoPercentInEither(pre, w);
    PercentOfWord(pre, w, rest);
    NatStringParses(n);
  }

  lemma DigitsArePlain(w: string)
    requires AllDigits(w)
    ensures HasNoSpace(w) && '%' !in w
  {
    forall k | 0 <= k < |w| ensures !IsSpace(w[k]) && w[k] != '%' {
      assert IsDigit(w[k]);
    }
  }

  lemma NoPercentInEither(a: string, b: string)
    requires '%' !in a && '%' !in b
    ensures '%' !in a + b
  {
    forall k | 0 <= k < |a + b| ensures (a + b)[k] != '%' {
      if k >= |a| {
        assert (a + b)[k] == b[k - |a|];
      }
    }
  }

  lemma {:induction false} TrimStartOfSpaces(s: string)
    requires AllSpace(s)
    ensures TrimStart(s) == []
  {
    if s != [] {
      TrimStartOfSpaces(s[1..]);
    }
  }

  /** A `%` with nothing but whitespace before it yields no percentage. */
  lemma BlankBeforePercent(pre: string, rest: string)
    requires AllSpace(pre)
    ensures ProgressPercent(pre + "%" + rest) == None
  {
    assert '%' !in pre by {
      forall k | 0 <= k < |pre| ensures pre[k] != '%' { assert IsSpace(pre[k]); }
    }
    HeadBeforePercent(pre, rest);
    TrimStartOfSpaces(pre);
    assert Strip(pre) == [];
  }

  /** The progress events of a stderr stream, in order. */
  function Percents(lines: seq<string>): (ps: seq<int>)
    ensures |ps| <= |lines|
  {
    if lines == [] then []
    else
      var n := |lines| - 1;
      var p := ProgressPercent(lines[n]);
      Percents(lines[..n]) + (if p.Some? then [p.value] else [])
  }

  /** Every progress event is the percentage of some stderr line. */
  lemma {:induction false} PercentsFromLines(lines: seq<string>)
    ensures forall k :: 0 <= k < |Percents(lines)| ==>
              exists i :: 0 <= i < |lines| && ProgressPercent(lines[i]) == Some(Percents(lines)[k])
  {
    if lines != [] {
      var n := |lines| - 1;
      var front := Percents(lines[..n]);
      var p := ProgressPercent(lines[n]);
      var last := if p.Some? then [p.value] else [];
      PercentsFromLines(lines[..n]);
      var ps := Percents(lines);
      assert ps == front + last;
      forall k | 0 <= k < |ps|
        ensures exists i :: 0 <= i < |lines| && ProgressPercent(lines[i]) == Some(ps[k])
      {
        if k < |front| {
          assert ps[k] == front[k];
          var i :| 0 <= i < n && ProgressPercent(lines[..n][i]) == Some(front[k]);
          assert lines[..n][i] == lines[i];
        } else {
          assert ps[k] == last[0];
          assert ProgressPercent(lines[n]) == Some(ps[k]);
        }
      }
    } else {
      assert |Percents(lines)| == 0;
    }
  }

  /** The events of two stretches of stderr are the events of the first
      followed by those of the second. */
  lemma {:induction false} PercentsAppend(a: seq<string>, b: seq<string>)
    ensures Percents(a + b) == Percents(a) + Percents(b)
    decreases |b|
  {
    if b == [] {
      assert a + b == a;
    } else {
      var n := |b| - 1;
      assert (a + b)[..|a + b| - 1] == a + b[..n];
      assert (a + b)[|a + b| - 1] == b[n];
      PercentsAppend(a, b[..n]);
    }
  }

  /** What the stderr loop as written leaves behind: the events it printed
      and whether a line stopped it with `OverflowError`. */
  datatype Progress = Progress(percents: seq<int>, raised: bool)

  /** The message of the `OverflowError` that `int()` raises on an infinity. */
  const OverflowMessage := "cannot convert float infinity to integer"

  /** One turn of the stderr loop as written. */
  function Advance(front: Progress, outcome: LineOutcome): Progress {
    if front.raised then front
    else
      match outcome
      case Raised => Progress(front.percents, true)
      case Emitted(p) => Progress(front.percents + [p], false)
      case _ => front
  }

  /** What the loop body does with each line of a stream. */
  function Outcomes(lines: seq<string>): (os: seq<LineOutcome>)
    ensures |os| == |lines|
    ensures forall k :: 0 <= k < |lines| ==> os[k] == ProgressLineAsWritten(lines[k])
  {
    seq(|lines|, k requires 0 <= k < |lines| => ProgressLineAsWritten(lines[k]))
  }

  /** The loop as written over a run of line outcomes. */
  function RunOutcomes(os: seq<LineOutcome>): (pr: Progress)
    ensures |pr.percents| <= |os|
  {
    if os == [] then Progress([], false)
    else
      var n := |os| - 1;
      Advance(RunOutcomes(os[..n]), os[n])
  }

  /** The percentages of a run of line outcomes, every other outcome
      (a raise included) ignored. */
  function EmittedPercents(os: seq<LineOutcome>): (ps: seq<int>)
    ensures |ps| <= |os|
  {
    if os == [] then []
    else
      var n := |os| - 1;
      EmittedPercents(os[..n]) + (if os[n].Emitted? then [os[n].percent] else [])
  }

  /** The stderr loop as written, line by line: after a line that raises,
      nothing more is read. */
  function ProgressAsWritten(lines: seq<string>): (pr: Progress)
    ensures |pr.percents| <= |lines|
  {
    RunOutcomes(Outcomes(lines))
  }

  lemma {:induction false} RunWithoutRaise(os: seq<LineOutcome>)
    requires forall k :: 0 <= k < |os| ==> os[k] != Raised
    ensures RunOutcomes(os) == Progress(EmittedPercents(os), false)
  {
    if os != [] {
      var n := |os| - 1;
      assert forall k :: 0 <= k < n ==> os[..n][k] == os[k];
      RunWithoutRaise(os[..n]);
    }
  }

  lemma {:induction false} RunStopsAtRaise(os: seq<LineOutcome>, i: nat)
    requires i < |os| && os[i] == Raised
    requires forall k :: 0 <= k < i ==> os[k] != Raised
    ensures RunOutcomes(os) == Progress(EmittedPercents(os[..i]), true)
    decreases |os|
  {
    var n := |os| - 1;
    if n == i {
      assert forall k :: 0 <= k < i ==> os[..i][k] == os[k];
      RunWithoutRaise(os[..i]);
    } else {
      assert os[..n][i] == os[i];
      assert forall k :: 0 <= k < i ==> os[..n][k] == os[k];
      RunStopsAtRaise(os[..n], i);
      assert os[..n][..i] == os[..i];
    }
  }

  lemma {:induction false} RunRaisedPersists(os: seq<LineOutcome>, i: nat)
    requires i <= |os| && RunOutcomes(os[..i]).raised
    ensures RunOutcomes(os) == RunOutcomes(os[..i])
    decreases |os| - i
  {
    if i < |os| {
      var n := |os| - 1;
      assert os[..n][..i] == os[..i];
      RunRaisedPersists(os[..n], i);
    } else {
      assert os[..i] == os;
    }
  }

  /** The corrected events of a stream are the percentages its lines emit. */
  lemma {:induction false} PercentsAreEmitted(lines: seq<string>)
    ensures Percents(lines) == EmittedPercents(Outcomes(lines))
  {
    if lines != [] {
      var n := |lines| - 1;
      var os := Outcomes(lines);
      assert Outcomes(lines[..n]) == os[..n];
      PercentsAreEmitted(lines[..n]);
    }
  }

  lemma OutcomesPrefix(lines: seq<string>, i: nat)
    requires i <= |lines|
    ensures Outcomes(lines)[..i] == Outcomes(lines[..i])
  {
  }

  /** On a stream where no line raises, the loop as written prints exactly
      the events of the corrected reading and runs to the end. */
  lemma AsWrittenWithoutRaise(lines: seq<string>)
    requires forall i :: 0 <= i < |lines| ==> ProgressLineAsWritten(lines[i]) != Raised
    ensures ProgressAsWritten(lines) == Progress(Percents(lines), false)
  {
    RunWithoutRaise(Outcomes(lines));
    PercentsAreEmitted(lines);
  }

  /** The first line that raises stops the loop: the events printed are the
      corrected events of the lines before it. */
  lemma AsWrittenStopsAtRaise(lines: seq<string>, i: nat)
    requires i < |lines| && ProgressLineAsWritten(lines[i]) == Raised
    requires forall k :: 0 <= k < i ==> ProgressLineAsWritten(lines[k]) != Raised
    ensures ProgressAsWritten(lines) == Progress(Percents(lines[..i]), true)
  {
    var os := Outcomes(lines);
    RunStopsAtRaise(os, i);
    OutcomesPrefix(lines, i);
    PercentsAreEmitted(lines[..i]);
  }

  lemma RunStep(os: seq<LineOutcome>, i: nat)
    requires i < |os|
    ensures RunOutcomes(os[..i + 1]) == Advance(RunOutcomes(os[..i]), os[i])
  {
    assert os[..i + 1][..i] == os[..i];
  }

  /** The stderr loop as written, with its JSON progress events collected;
      `raised` tells that an `OverflowError` left the loop early. */
  method CollectProgress(lines: seq<string>) returns (percents: seq<int>, raised: bool)
    ensures Progress(percents, raised) == ProgressAsWritten(lines)
  {
    ghost var os := Outcomes(lines);
    percents := [];
    raised := false;
    var i := 0;
    while i < |lines| && !raised
      invariant 0 <= i <= |lines|
      invariant Progress(percents, raised) == RunOutcomes(os[..i])
    {
      RunStep(os, i);
      var outcome := ProgressLineAsWritten(lines[i]);
      match outcome {
        case Raised =>
          raised := true;
        case Emitted(p) =>
          percents := percents + [p];
        case _ =>
      }
      i := i + 1;
    }
    if raised {
      RunRaisedPersists(os, i);
    } else {
      assert os[..i] == os;
    }
  }

  // ---------------------------------------------------------------------
  // Locating the stems (lines 123-168)
  // ---------------------------------------------------------------------

  const SixStemModel: string := "htdemucs_6s"

  /** The stems a model produces, in the order they are looked up. */
  function StemTypes(model: string): (types: seq<string>)
    ensures |types| == if model == SixStemModel then 6 else 4
    ensures types[..3] == ["vocals", "drums", "bass"] && types[|types| - 1] == "other"
    ensures model == SixStemModel ==> types[3..5] == ["guitar", "piano"]
    ensures forall i, j :: 0 <= i < j < |types| ==> types[i] != types[j]
  {
    if model == SixStemModel then ["vocals", "drums", "bass", "guitar", "piano", "other"]
    else ["vocals", "drums", "bass", "other"]
  }

  /** `output_dir/model/<stem of the audio file name>` */
  function StemDir(outputDir: string, model: string, audioPath: string): string {
    JoinPath(JoinPath(outputDir, model), PathStem(audioPath))
  }

  /** The stem directory is named after the audio file's stem. */
  lemma StemDirNamedAfterTrack(outputDir: string, model: string, audioPath: string)
    requires PathStem(audioPath) != "" && PathStem(audioPath) != "."
    ensures PathName(StemDir(outputDir, model, audioPath)) == PathStem(audioPath)
  {
    StemHasNoSlash(audioPath);
    NameOfJoin(JoinPath(outputDir, model), PathStem(audioPath));
  }

  lemma StemHasNoSlash(audioPath: string)
    ensures '/' !in PathStem(audioPath)
  {
    var name := PathName(audioPath);
    var stem := PathStem(audioPath);
    assert stem <= name;
    forall k | 0 <= k < |stem| ensures stem[k] != '/' { assert stem[k] == name[k]; }
  }

  /** The stem directory's components are those of the output directory,
      then those of the model name, then the track's stem: for a plain
      model name, the path ends in `<model>/<stem>`. */
  lemma StemDirComponents(outputDir: string, model: string, audioPath: string)
    requires |model| == 0 || model[0] != '/'
    requires PathStem(audioPath) != "" && PathStem(audioPath) != "."
    ensures Components(Split(StemDir(outputDir, model, audioPath), '/'))
            == Components(Split(outputDir, '/')) + Components(Split(model, '/')) + [PathStem(audioPath)]
    ensures model != "" && model != "." && '/' !in model ==>
              Components(Split(StemDir(outputDir, model, audioPath), '/'))
              == Components(Split(outputDir, '/')) + [model, PathStem(audioPath)]
  {
    var stem := PathStem(audioPath);
    var front := JoinPath(outputDir, model);
    var co, cm := Components(Split(outputDir, '/')), Components(Split(model, '/'));
    var cs := co + cm;
    assert Components(Split(front, '/')) == cs by {
      JoinComponents(outputDir, model);
    }
    assert Components(Split(stem, '/')) == [stem] by {
      StemHasNoSlash(audioPath);
      PlainNameComponents(stem);
    }
    assert stem[0] != '/';
    JoinComponents(front, stem);
    if model != "" && model != "." && '/' !in model {
      PlainNameComponents(model);
      PairAppended(co, model, stem);
    }
  }

  lemma PairAppended(xs: seq<string>, a: string, b: string)
    ensures xs + [a] + [b] == xs + [a, b]
  {
  }

  /** Where a stem is found: `<stem>.mp3` first, else the bare name. */
  function ResolveStem(stemDir: string, stemType: string, existing: set<string>): (r: Option<string>)
    ensures r.Some? ==> r.value in existing
    ensures JoinPath(stemDir, stemType + ".mp3") in existing ==> r == Some(JoinPath(stemDir, stemType + ".mp3"))
    ensures JoinPath(stemDir, stemType + ".mp3") !in existing ==>
              r == (if JoinPath(stemDir, stemType) in existing then Some(JoinPath(stemDir, stemType)) else None)
  {
    var withExt := JoinPath(stemDir, stemType + ".mp3");
    if withExt in existing then Some(withExt)
    else
      var bare := JoinPath(stemDir, stemType);
      if bare in existing then Some(bare) else None
  }

  /** A resolved stem file sits in the stem directory under the stem's
      name, with or without the `.mp3` extension. */
  lemma ResolvedStemFileName(stemDir: string, stemType: string, existing: set<string>)
    requires stemType != "" && stemType != "." && '/' !in stemType
    requires ResolveStem(stemDir, stemType, existing).Some?
    ensures var name := PathName(ResolveStem(stemDir, stemType, existing).value);
            name == stemType + ".mp3" || name == stemType
  {
    var file := stemType + ".mp3";
    assert '/' !in file;
    assert file != "." by { assert |file| > 1; }
    NameOfJoin(stemDir, file);
    NameOfJoin(stemDir, stemType);
  }

  /** An entry of the `stems` dict, in insertion order. */
  datatype StemFile = StemFile(stem: string, path: string)

  /** The entry the lookup adds for one stem: none, or the stem and the
      path it resolved to. */
  function StemEntry(stemDir: string, stemType: string, existing: set<string>): (e: seq<StemFile>)
    ensures |e| <= 1
    ensures |e| == 1 <==> ResolveStem(stemDir, stemType, existing).Some?
    ensures |e| == 1 ==> e[0] == StemFile(stemType, ResolveStem(stemDir, stemType, existing).value)
  {
    match ResolveStem(stemDir, stemType, existing)
    case Some(path) => [StemFile(stemType, path)]
    case None => []
  }

  /** The `stems` dict the lookup loop builds: the stems that resolved, in
      lookup order, each with the path the lookup rule picks. */
  function FoundStems(stemDir: string, types: seq<string>, existing: set<string>): (found: seq<StemFile>)
    ensures |found| <= |types|
  {
    if types == [] then []
    else
      var n := |types| - 1;
      FoundStems(stemDir, types[..n], existing) + StemEntry(stemDir, types[n], existing)
  }

  /** Every found stem sits at the path the lookup rule picks for it. */
  lemma {:induction false} FoundStemsResolve(stemDir: string, types: seq<string>, existing: set<string>)
    ensures forall k :: 0 <= k < |FoundStems(stemDir, types, existing)| ==>
              ResolveStem(stemDir, FoundStems(stemDir, types, existing)[k].stem, existing)
              == Some(FoundStems(stemDir, types, existing)[k].path)
  {
    if types != [] {
      var n := |types| - 1;
      var front := FoundStems(stemDir, types[..n], existing);
      var last := StemEntry(stemDir, types[n], existing);
      FoundStemsResolve(stemDir, types[..n], existing);
      var found := FoundStems(stemDir, types, existing);
      assert found == front + last;
      forall k | 0 <= k < |found|
        ensures ResolveStem(stemDir, found[k].stem, existing) == Some(found[k].path)
      {
        if k < |front| {
          assert found[k] == front[k];
        } else {
          assert found[k] == last[0];
        }
      }
    }
  }

  /** Every stem is found exactly when every stem resolves. */
  lemma {:induction false} AllStemsFound(stemDir: string, types: seq<string>, existing: set<string>)
    ensures |FoundStems(stemDir, types, existing)| == |types| <==>
              forall k :: 0 <= k < |types| ==> ResolveStem(stemDir, types[k], existing).Some?
  {
    if types != [] {
      var n := |types| - 1;
      var front := FoundStems(stemDir, types[..n], existing);
      var last := StemEntry(stemDir, types[n], existing);
      AllStemsFound(stemDir, types[..n], existing);
      assert FoundStems(stemDir, types, existing) == front + last;
      if |front + last| == |types| {
        assert |front| == n && |last| == 1;
        forall k | 0 <= k < |types| ensures ResolveStem(stemDir, types[k], existing).Some? {
          if k < n { assert types[..n][k] == types[k]; }
        }
      }
      if forall k :: 0 <= k < |types| ==> ResolveStem(stemDir, types[k], existing).Some? {
        forall k | 0 <= k < n ensures ResolveStem(stemDir, types[..n][k], existing).Some? {
          assert types[..n][k] == types[k];
        }
        assert |front| == n;
        assert ResolveStem(stemDir, types[n], existing).Some?;
      }
    }
  }

  /** When every stem is found, the found stems come in lookup order. */
  lemma {:induction false} FoundStemsInOrder(stemDir: string, types: seq<string>, existing: set<string>)
    requires |FoundStems(stemDir, types, existing)| == |types|
    ensures forall k :: 0 <= k < |types| ==> FoundStems(stemDir, types, existing)[k].stem == types[k]
  {
    if types != [] {
      var n := |types| - 1;
      var front := FoundStems(stemDir, types[..n], existing);
      var last := StemEntry(stemDir, types[n], existing);
      var found := FoundStems(stemDir, types, existing);
      assert found == front + last;
      assert |front| == n && |last| == 1;
      FoundStemsInOrder(stemDir, types[..n], existing);
      forall k | 0 <= k < |types| ensures found[k].stem == types[k] {
        if k < n {
          assert found[k] == front[k];
          assert types[..n][k] == types[k];
        } else {
          assert found[k] == last[0];
        }
      }
    }
  }

  lemma FoundStemsStep(stemDir: string, types: seq<string>, existing: set<string>, i: nat)
    requires i < |types|
    ensures FoundStems(stemDir, types[..i + 1], existing) ==
              FoundStems(stemDir, types[..i], existing) + StemEntry(stemDir, types[i], existing)
  {
    assert types[..i + 1][..i] == types[..i];
  }

  /** The lookup loop over the stem types. */
  method LocateStems(stemDir: string, types: seq<string>, existing: set<string>) returns (found: seq<StemFile>)
    ensures found == FoundStems(stemDir, types, existing)
  {
    found := [];
    var i := 0;
    while i < |types|
      invariant 0 <= i <= |types|
      invariant found == FoundStems(stemDir, types[..i], existing)
    {
      var stemType := types[i];
      FoundStemsStep(stemDir, types, existing, i);
      var stemPath := JoinPath(stemDir, stemType + ".mp3");
      if stemPath in existing {
        found := found + [StemFile(stemType, stemPath)];
      } else {
        var stemPathNoExt := JoinPath(stemDir, stemType);
        if stemPathNoExt in existing {
          found := found + [StemFile(stemType, stemPathNoExt)];
        }
      }
      i := i + 1;
    }
    assert types[..i] == types;
  }

  function StemNames(found: seq<StemFile>): (names: seq<string>)
    ensures |names| == |found| && forall k :: 0 <= k < |found| ==> names[k] == found[k].stem
  {
    seq(|found|, k requires 0 <= k < |found| => found[k].stem)
  }

  lemma StemNamesAppend(x: seq<StemFile>, y: seq<StemFile>)
    ensures StemNames(x + y) == StemNames(x) + StemNames(y)
  {
    var l, r := StemNames(x + y), StemNames(x) + StemNames(y);
    forall k | 0 <= k < |l| ensures l[k] == r[k] {
      if k < |x| {
        assert (x + y)[k] == x[k];
      } else {
        assert (x + y)[k] == y[k - |x|];
      }
    }
  }

  /** The lookup keeps the order of the stem types: the stems found among
      two runs of types are those of the first run followed by those of
      the second. */
  lemma {:induction false} FoundStemsAppend(stemDir: string, a: seq<string>, b: seq<string>, existing: set<string>)
    ensures FoundStems(stemDir, a + b, existing) == FoundStems(stemDir, a, existing) + FoundStems(stemDir, b, existing)
    decreases |b|
  {
    if b == [] {
      assert a + b == a;
    } else {
      var n := |b| - 1;
      assert (a + b)[..|a + b| - 1] == a + b[..n];
      assert (a + b)[|a + b| - 1] == b[n];
      FoundStemsAppend(stemDir, a, b[..n], existing);
    }
  }

  /** For one stem type, the lookup adds that stem exactly when it
      resolves. */
  lemma FoundStemsOne(stemDir: string, t: string, existing: set<string>)
    ensures FoundStems(stemDir, [t], existing) == StemEntry(stemDir, t, existing)
  {
    assert [t][..0] == [];
  }

  /** A stem is named among the found ones exactly when it is an expected
      stem that resolves. */
  lemma {:induction false} FoundStemNames(stemDir: string, types: seq<string>, existing: set<string>)
    ensures forall t :: t in StemNames(FoundStems(stemDir, types, existing)) <==>
              t in types && ResolveStem(stemDir, t, existing).Some?
  {
    if types != [] {
      var n := |types| - 1;
      var front := FoundStems(stemDir, types[..n], existing);
      var last := StemEntry(stemDir, types[n], existing);
      FoundStemNames(stemDir, types[..n], existing);
      StemNamesAppend(front, last);
      assert types == types[..n] + [types[n]];
      assert StemNames(last) == if |last| == 1 then [types[n]] else [];
    }
  }

  // ---------------------------------------------------------------------
  // The whole run
  // ---------------------------------------------------------------------

  /** How the Demucs process went. */
  datatype ProcessOutcome =
    | NotInstalled                      // `FileNotFoundError` from the launch
    | LaunchFailed(message: string)     // any other exception
    | Exited(stderrLines: seq<string>, returnCode: int, remainingStderr: string)

  /** What the outside world answers to the wrapper's questions. */
  datatype Environment = Environment(
    audioExists: bool,
    makedirsError: Option<string>,
    process: ProcessOutcome,
    existing: set<string>)   // paths that exist once Demucs is done

  datatype DemucsError =
    | AudioNotFound(audioPath: string)
    | OutputDirFailed(reason: string)
    | DemucsMissing
    | ExecutionFailed(reason: string)
    | DemucsFailed(returnCode: int, stderr: string)
    | StemDirMissing(stemDir: string)
    | StemCountMismatch(expected: nat, found: nat, foundStems: seq<string>)

  datatype StemResult = StemResult(stems: seq<StemFile>, model: string, outputDir: string)

  /** Everything the wrapper reports: the command it launched (if it got
      that far), the progress events, and the final result or error. */
  datatype DemucsReport = DemucsReport(
    launched: Option<seq<string>>,
    progress: seq<int>,
    outcome: Result<StemResult, DemucsError>)

  /** Lines 126-168: the stem directory must exist and every expected stem
      must be found. */
  function StemsOutcome(model: string, stemDir: string, existing: set<string>): Result<StemResult, DemucsError> {
    if stemDir !in existing then Failure(StemDirMissing(stemDir))
    else
      var types := StemTypes(model);
      var found := FoundStems(stemDir, types, existing);
      if |found| != |types| then Failure(StemCountMismatch(|types|, |found|, StemNames(found)))
      else Success(StemResult(found, model, stemDir))
  }

  /** The outcome of `run_demucs`, its checks taken in the source's order. */
  function DemucsOutcome(audioPath: string, model: string, outputDir: string, env: Environment): Result<StemResult, DemucsError> {
    if !env.audioExists then Failure(AudioNotFound(audioPath))
    else if env.makedirsError.Some? then Failure(OutputDirFailed(env.makedirsError.value))
    else
      match env.process
      case NotInstalled => Failure(DemucsMissing)
      case LaunchFailed(message) => Failure(ExecutionFailed(message))
      case Exited(lines, code, remaining) =>
        if ProgressAsWritten(lines).raised then Failure(ExecutionFailed(OverflowMessage))
        else if code != 0 then Failure(DemucsFailed(code, remaining))
        else StemsOutcome(model, StemDir(outputDir, model, audioPath), env.existing)
  }

  /** The progress events: a `0` once the command is built, then one per
      stderr line that reports a percentage, up to a line that raises. */
  function DemucsProgress(env: Environment): seq<int> {
    if !env.audioExists || env.makedirsError.Some? then []
    else [0] + (if env.process.Exited? then ProgressAsWritten(env.process.stderrLines).percents else [])
  }

  /** `run_demucs(audio_path, model, output_dir)`, run by `python`. */
  method RunDemucs(audioPath: string, model: string, outputDir: string, python: string, env: Environment)
    returns (report: DemucsReport)
    ensures report.outcome == DemucsOutcome(audioPath, model, outputDir, env)
    ensures report.progress == DemucsProgress(env)
    ensures report.launched == if env.audioExists && env.makedirsError.None?
                               then Some(DemucsCommand(python, model, outputDir, audioPath)) else None
  {
    if !env.audioExists {
      return DemucsReport(None, [], Failure(AudioNotFound(audioPath)));
    }
    if env.makedirsError.Some? {
      return DemucsReport(None, [], Failure(OutputDirFailed(env.makedirsError.value)));
    }
    var cmd := DemucsCommand(python, model, outputDir, audioPath);
    var progress := [0];
    match env.process {
      case NotInstalled =>
        return DemucsReport(Some(cmd), progress, Failure(DemucsMissing));
      case LaunchFailed(message) =>
        return DemucsReport(Some(cmd), progress, Failure(ExecutionFailed(message)));
      case Exited(lines, code, remaining) =>
        var percents, raised := CollectProgress(lines);
        progress := progress + percents;
        if raised {
          return DemucsReport(Some(cmd), progress, Failure(ExecutionFailed(OverflowMessage)));
        }
        if code != 0 {
          return DemucsReport(Some(cmd), progress, Failure(DemucsFailed(code, remaining)));
        }
    }

    var stemDir := StemDir(outputDir, model, audioPath);
    if stemDir !in env.existing {
      return DemucsReport(Some(cmd), progress, Failure(StemDirMissing(stemDir)));
    }
    var stemTypes := StemTypes(model);
    var stems := LocateStems(stemDir, stemTypes, env.existing);
    var expected := |stemTypes|;
    if |stems| != expected {
      return DemucsReport(Some(cmd), progress, Failure(StemCountMismatch(expected, |stems|, StemNames(stems))));
    }
    return DemucsReport(Some(cmd), progress, Success(StemResult(stems, model, stemDir)));
  }

  /** A stem check that succeeds found every expected stem of the model,
      in order, at the path the lookup rule picks, and reports the model
      and the stem directory unchanged. */
  lemma StemsSuccess(model: string, stemDir: string, existing: set<string>)
    requires StemsOutcome(model, stemDir, existing).Success?
    ensures var res := StemsOutcome(model, stemDir, existing).value;
            var types := StemTypes(model);
            && stemDir in existing
            && res.model == model && res.outputDir == stemDir
            && |res.stems| == |types|
            && forall k :: 0 <= k < |types| ==>
                 res.stems[k].stem == types[k]
                 && res.stems[k].path in existing
                 && ResolveStem(stemDir, types[k], existing) == Some(res.stems[k].path)
  {
    var types := StemTypes(model);
    FoundStemsInOrder(stemDir, types, existing);
    FoundStemsResolve(stemDir, types, existing);
  }

  /** With the stem directory present, the stem check succeeds exactly when
      every expected stem resolves; otherwise the error lists the stems
      that were found. */
  lemma StemsSuccessIff(model: string, stemDir: string, existing: set<string>)
    requires stemDir in existing
    ensures var types := StemTypes(model);
            var found := FoundStems(stemDir, types, existing);
            && (StemsOutcome(model, stemDir, existing).Success? <==>
                  forall k :: 0 <= k < |types| ==> ResolveStem(stemDir, types[k], existing).Some?)
            && (StemsOutcome(model, stemDir, existing).Failure? ==>
                  StemsOutcome(model, stemDir, existing).error
                  == StemCountMismatch(|types|, |found|, StemNames(found))
                  && |found| < |types|)
  {
    AllStemsFound(stemDir, StemTypes(model), existing);
  }

  /** A result of the whole run means the audio existed, Demucs exited with
      0, and the stem check succeeded in the directory named after the
      audio file. */
  lemma RunSuccess(audioPath: string, model: string, outputDir: string, env: Environment)
    requires DemucsOutcome(audioPath, model, outputDir, env).Success?
    ensures && env.audioExists && env.makedirsError.None?
            && env.process.Exited? && env.process.returnCode == 0
            && !ProgressAsWritten(env.process.stderrLines).raised
            && DemucsOutcome(audioPath, model, outputDir, env)
               == StemsOutcome(model, StemDir(outputDir, model, audioPath), env.existing)
  {
  }

  /** The first of the lines that raise. */
  lemma {:induction false} FirstRaisingLine(lines: seq<string>, i: nat) returns (j: nat)
    requires i < |lines| && ProgressLineAsWritten(lines[i]) == Raised
    ensures j <= i && ProgressLineAsWritten(lines[j]) == Raised
    ensures forall k :: 0 <= k < j ==> ProgressLineAsWritten(lines[k]) != Raised
    decreases i
  {
    if k :| 0 <= k < i && ProgressLineAsWritten(lines[k]) == Raised {
      j := FirstRaisingLine(lines, k);
    } else {
      j := i;
    }
  }

  /** A stderr line whose percentage is an infinity fails the whole run with
      the `OverflowError` message, whatever Demucs' exit code and whatever
      stems exist. */
  lemma RaisingLineFailsRun(audioPath: string, model: string, outputDir: string, env: Environment, i: nat)
    requires env.audioExists && env.makedirsError.None? && env.process.Exited?
    requires i < |env.process.stderrLines|
    requires ProgressLineAsWritten(env.process.stderrLines[i]) == Raised
    ensures DemucsOutcome(audioPath, model, outputDir, env) == Failure(ExecutionFailed(OverflowMessage))
  {
    RaisingLineRaises(env.process.stderrLines, i);
    RaisedRunFails(audioPath, model, outputDir, env);
  }

  lemma RaisedRunFails(audioPath: string, model: string, outputDir: string, env: Environment)
    requires env.audioExists && env.makedirsError.None? && env.process.Exited?
    requires ProgressAsWritten(env.process.stderrLines).raised
    ensures DemucsOutcome(audioPath, model, outputDir, env) == Failure(ExecutionFailed(OverflowMessage))
  {
  }

  /** The progress of such a run stops before the first line that raises. */
  lemma RaisingLineStopsProgress(env: Environment, i: nat)
    requires env.audioExists && env.makedirsError.None? && env.process.Exited?
    requires i < |env.process.stderrLines|
    requires ProgressLineAsWritten(env.process.stderrLines[i]) == Raised
    ensures exists j :: 0 <= j <= i && ProgressLineAsWritten(env.process.stderrLines[j]) == Raised
              && DemucsProgress(env) == [0] + Percents(env.process.stderrLines[..j])
  {
    var lines := env.process.stderrLines;
    var j := FirstRaisingLine(lines, i);
    AsWrittenStopsAtRaise(lines, j);
  }

  lemma RaisingLineRaises(lines: seq<string>, i: nat)
    requires i < |lines| && ProgressLineAsWritten(lines[i]) == Raised
    ensures ProgressAsWritten(lines).raised
  {
    var j := FirstRaisingLine(lines, i);
    AsWrittenStopsAtRaise(lines, j);
  }

  /** When no stderr line raises, the run prints every percentage the
      corrected reading finds. */
  lemma ProgressWithoutRaise(env: Environment)
    requires env.audioExists && env.makedirsError.None? && env.process.Exited?
    requires forall i :: 0 <= i < |env.process.stderrLines| ==>
               ProgressLineAsWritten(env.process.stderrLines[i]) != Raised
    ensures DemucsProgress(env) == [0] + Percents(env.process.stderrLines)
  {
    AsWrittenWithoutRaise(env.process.stderrLines);
  }

  /** When the `.mp3` file of every stem exists, those are the files
      reported, whatever bare-named files exist beside them. */
  lemma Mp3FilesPreferred(model: string, stemDir: string, existing: set<string>)
    requires stemDir in existing
    requires forall t :: t in StemTypes(model) ==> JoinPath(stemDir, t + ".mp3") in existing
    ensures var res := StemsOutcome(model, stemDir, existing);
            var types := StemTypes(model);
            && res.Success?
            && forall k :: 0 <= k < |types| ==>
                 res.value.stems[k] == StemFile(types[k], JoinPath(stemDir, types[k] + ".mp3"))
  {
    var types := StemTypes(model);
    assert forall k :: 0 <= k < |types| ==> types[k] in types;
    StemsSuccessIff(model, stemDir, existing);
    StemsSuccess(model, stemDir, existing);
  }
}
