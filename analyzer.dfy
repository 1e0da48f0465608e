/** The audio analyzer: which features a request names, which extractors
    run for it, what the result dictionary holds, and how the key of a
    piece is labelled from its mean chroma vector. The numbers librosa
    computes are inputs here; the decisions made on them are modelled. */
module Analyzer {
  import opened Wrappers
  import opened Text

  // ---------------------------------------------------------------------
  // The feature list on the command line
  // ---------------------------------------------------------------------

  /** The value `--features` takes when it is not given. */
  const DefaultFeatures: string := "tempo,key,energy"

  /** The seven names a request may use. */
  const ValidFeatures: set<string> := {"tempo", "key", "energy", "spectral", "mfcc", "chroma", "all"}

  /** One requested name per comma-separated piece of the argument, with
      the whitespace around the piece stripped. */
  function ParseFeatures(arg: string): (features: seq<string>)
    ensures |features| == |Split(arg, ',')| >= 1
    ensures forall k :: 0 <= k < |features| ==> ',' !in features[k] && IsStripped(features[k])
  {
    var pieces := Split(arg, ',');
    StripAllStripped(pieces);
    StripAllAvoids(pieces, ',');
    var r := StripAll(pieces);
    assert forall k :: 0 <= k < |r| ==> r[k] in r;
    r
  }

  /** Each name is its piece of the argument, in the same position, with
      only whitespace cut from its two ends: the leading whitespace and
      whatever follows the name. */
  lemma ParseFeaturesPieces(arg: string)
    ensures var pieces, features := Split(arg, ','), ParseFeatures(arg);
            forall k :: 0 <= k < |pieces| ==> SpaceAround(pieces[k], Lead(pieces[k]), features[k])
  {
    StripAllInfix(Split(arg, ','));
  }

  /** Writing names without commas or surrounding whitespace as a
      comma-separated list and parsing it gives back the same names. */
  lemma ParseJoinedFeatures(names: seq<string>)
    requires |names| >= 1
    requires forall k :: 0 <= k < |names| ==> ',' !in names[k] && IsStripped(names[k])
    ensures ParseFeatures(Join(names, ',')) == names
  {
    SplitJoin(names, ',');
    StripAllAt(names);
    forall k | 0 <= k < |names| ensures ParseFeatures(Join(names, ','))[k] == names[k] {
      StripKeepsStripped(names[k]);
    }
  }

  /** Without `--features`, tempo, key and energy are requested. */
  lemma DefaultRequest()
    ensures ParseFeatures(DefaultFeatures) == ["tempo", "key", "energy"]
  {
    var names := ["tempo", "key", "energy"];
    assert Join(names, ',') == DefaultFeatures by {
      assert Join(names[1..], ',') == "key,energy" by {
        assert names[1..][1..] == ["energy"];
      }
    }
    ParseJoinedFeatures(names);
  }

  /** The names of a request that are not among the seven valid ones. */
  function InvalidNames(features: seq<string>): (bad: set<string>)
    ensures forall f :: f in bad <==> f in features && f !in ValidFeatures
  {
    (set f | f in features) - ValidFeatures
  }

  /** The check `main` makes before any analysis: the request is refused,
      naming every invalid entry, unless all of its names are valid. */
  function ValidateFeatures(features: seq<string>): (r: Result<seq<string>, set<string>>)
    ensures r.Success? <==> forall k :: 0 <= k < |features| ==> features[k] in ValidFeatures
    ensures r.Success? ==> r.value == features
    ensures r.Failure? ==> r.error != {} && forall f :: f in r.error <==> f in features && f !in ValidFeatures
  {
    var bad := InvalidNames(features);
    if bad == {} then Success(features)
    else Failure(bad)
  }

  /** Every valid name has at least three letters. */
  lemma ValidNamesNonEmpty()
    ensures forall f :: f in ValidFeatures ==> |f| >= 3
  {
  }

  /** An empty piece, as a trailing comma or an empty argument leaves, is
      not a valid name, so such a request is refused and the empty name is
      among the ones reported. */
  lemma EmptyPieceRefused(arg: string)
    requires "" in Split(arg, ',')
    ensures ValidateFeatures(ParseFeatures(arg)).Failure?
    ensures "" in ValidateFeatures(ParseFeatures(arg)).error
  {
    var pieces := Split(arg, ',');
    var features := ParseFeatures(arg);
    assert "" in features by {
      var i :| 0 <= i < |pieces| && pieces[i] == "";
      StripAllAt(pieces);
      assert features[i] == Strip("") == "";
    }
    assert "" !in ValidFeatures by {
      ValidNamesNonEmpty();
    }
  }

  // ---------------------------------------------------------------------
  // The extractors and which of them run
  // ---------------------------------------------------------------------

  datatype Extractor = Tempo | Key | Energy | Spectral | Mfcc | Chroma

  /** The extractors in the order the analysis applies them. */
  const Extractors: seq<Extractor> := [Tempo, Key, Energy, Spectral, Mfcc, Chroma]

  /** The feature name that asks for an extractor. */
  function ExtractorName(e: Extractor): (name: string)
    ensures name in ValidFeatures && name != "all"
  {
    match e
    case Tempo => "tempo"
    case Key => "key"
    case Energy => "energy"
    case Spectral => "spectral"
    case Mfcc => "mfcc"
    case Chroma => "chroma"
  }

  /** The extractor a feature name asks for; `None` for `all` and for
      names that are not valid. */
  function ExtractorNamed(name: string): (e: Option<Extractor>)
    ensures e.Some? ==> ExtractorName(e.value) == name
    ensures e.None? ==> name == "all" || name !in ValidFeatures
  {
    match name
    case "tempo" => Some(Tempo)
    case "key" => Some(Key)
    case "energy" => Some(Energy)
    case "spectral" => Some(Spectral)
    case "mfcc" => Some(Mfcc)
    case "chroma" => Some(Chroma)
    case _ => None
  }

  /** Naming an extractor and looking the name up again gives the same
      extractor, so no two extractors share a name. */
  lemma NamesIdentifyExtractors(e: Extractor)
    ensures ExtractorNamed(ExtractorName(e)) == Some(e)
  {
  }

  /** The guard in front of each extractor: `'all' in features` or the
      extractor's own name is listed. */
  predicate Runs(features: seq<string>, e: Extractor) {
    "all" in features || ExtractorName(e) in features
  }

  /** Asking for `all` runs every extractor. */
  lemma AllRunsEverything(features: seq<string>, e: Extractor)
    requires "all" in features
    ensures Runs(features, e)
  {
  }

  /** Without `all`, the extractors that run are exactly the ones a valid
      request names: each listed name runs its extractor, and nothing
      unlisted runs. */
  lemma RunsExactlyRequested(features: seq<string>)
    requires ValidateFeatures(features).Success?
    requires "all" !in features
    ensures forall e :: Runs(features, e) <==> ExtractorName(e) in features
    ensures forall f :: f in features ==> ExtractorNamed(f).Some? && Runs(features, ExtractorNamed(f).value)
  {
    forall f | f in features ensures ExtractorNamed(f).Some? {
      var k :| 0 <= k < |features| && features[k] == f;
      assert f in ValidFeatures;
    }
  }

  // ---------------------------------------------------------------------
  // Key detection
  // ---------------------------------------------------------------------

  /** Twelve values, one per pitch class starting at C: the mean of the
      chroma features over time. */
  type ChromaVector = s: seq<real> | |s| == 12 witness [0.0, 0.0, 0.0, 0.0, 0.0, 0.0, 0.0, 0.0, 0.0, 0.0, 0.0, 0.0]

  const PitchClasses: seq<string> := ["C", "C#", "D", "D#", "E", "F", "F#", "G", "G#", "A", "A#", "B"]

  /** Binary scale templates with the tonic first. */
  const MajorProfile: seq<int> := [1, 0, 1, 0, 1, 1, 0, 1, 0, 1, 0, 1]
  const MinorProfile: seq<int> := [1, 0, 1, 1, 0, 1, 0, 1, 1, 0, 1, 0]

  /** `np.argmax`: the index of the largest value, the first one on a tie
      (`ArgmaxIsFirstMaximum`). */
  function Argmax(xs: seq<real>): (i: nat)
    requires |xs| > 0
    ensures i < |xs|
  {
    if |xs| == 1 then 0
    else
      var j := Argmax(xs[..|xs| - 1]);
      if xs[|xs| - 1] > xs[j] then |xs| - 1 else j
  }

  /** No value is larger than the one at the arg-max, and every value
      before it is strictly smaller. */
  lemma {:induction false} ArgmaxIsFirstMaximum(xs: seq<real>)
    requires |xs| > 0
    ensures forall k :: 0 <= k < |xs| ==> xs[k] <= xs[Argmax(xs)]
    ensures forall k :: 0 <= k < Argmax(xs) ==> xs[k] < xs[Argmax(xs)]
  {
    if |xs| > 1 {
      var front := xs[..|xs| - 1];
      ArgmaxIsFirstMaximum(front);
      assert forall k :: 0 <= k < |front| ==> front[k] == xs[k];
    }
  }

  /** `np.roll(s, p)`: every element moves `p` places to the right, and
      the last `p`, pushed off the end, come back at the front
      (`RollMovesRight`). */
  function Roll<T>(s: seq<T>, p: nat): (r: seq<T>)
    requires p < |s|
    ensures |r| == |s|
  {
    s[|s| - p..] + s[..|s| - p]
  }

  /** Where each element of a rolled sequence comes from. */
  lemma RollMovesRight<T>(s: seq<T>, p: nat)
    requires p < |s|
    ensures forall i :: p <= i < |s| ==> Roll(s, p)[i] == s[i - p]
    ensures forall i :: 0 <= i < p ==> Roll(s, p)[i] == s[|s| - p + i]
  {
  }

  /** `s[p:] + s[:p]`: the sequence read from index `p` on, wrapping
      round to the front. */
  function RotateLeft<T>(s: seq<T>, p: nat): (r: seq<T>)
    requires p <= |s|
    ensures |r| == |s|
  {
    s[p..] + s[..p]
  }

  /** `np.correlate(t, c)[0]` for two vectors of the same length: the sum
      of their products. */
  function Dot(t: seq<int>, c: seq<real>): real
    requires |t| == |c|
  {
    if |t| == 0 then 0.0
    else Dot(t[..|t| - 1], c[..|c| - 1]) + t[|t| - 1] as real * c[|c| - 1]
  }

  /** The sum of products splits over two halves taken at the same place. */
  lemma {:induction false} DotAppend(t1: seq<int>, t2: seq<int>, c1: seq<real>, c2: seq<real>)
    requires |t1| == |c1| && |t2| == |c2|
    ensures Dot(t1 + t2, c1 + c2) == Dot(t1, c1) + Dot(t2, c2)
    decreases |t2|
  {
    if |t2| == 0 {
      assert t1 + t2 == t1 && c1 + c2 == c1;
    } else {
      var t, c := t1 + t2, c1 + c2;
      assert t[..|t| - 1] == t1 + t2[..|t2| - 1];
      assert c[..|c| - 1] == c1 + c2[..|c2| - 1];
      DotAppend(t1, t2[..|t2| - 1], c1, c2[..|c2| - 1]);
    }
  }

  /** Rolling a template right by `p` and scoring it against the chroma
      scores the unrolled template against the chroma read from pitch
      class `p` on: the rolled template puts its tonic on `p`. */
  lemma RolledTemplate(t: seq<int>, c: seq<real>, p: nat)
    requires |t| == |c| && p < |t|
    ensures Dot(Roll(t, p), c) == Dot(t, RotateLeft(c, p))
  {
    var n := |t|;
    var tail, head := t[n - p..], t[..n - p];
    var front, back := c[..p], c[p..];
    assert c == front + back;
    assert t == head + tail;
    DotSwap(tail, head, front, back);
  }

  /** Swapping the two halves on both sides keeps the sum of products. */
  lemma DotSwap(a: seq<int>, b: seq<int>, x: seq<real>, y: seq<real>)
    requires |a| == |x| && |b| == |y|
    ensures Dot(a + b, x + y) == Dot(b + a, y + x)
  {
    DotAppend(a, b, x, y);
    DotAppend(b, a, y, x);
  }

  /** The sum of products of three entries, written out. */
  lemma DotOfThree(t: seq<int>, d: seq<real>)
    requires |t| == 3 && |d| == 3
    ensures Dot(t, d) == t[0] as real * d[0] + t[1] as real * d[1] + t[2] as real * d[2]
  {
    assert Dot(t, d) == Dot(t[..2], d[..2]) + t[2] as real * d[2];
    assert Dot(t[..2], d[..2]) == Dot(t[..1], d[..1]) + t[1] as real * d[1];
    assert Dot(t[..1], d[..1]) == Dot([], []) + t[0] as real * d[0];
  }

  /** The sum of products of six entries, written out. */
  lemma DotOfSix(t: seq<int>, d: seq<real>)
    requires |t| == 6 && |d| == 6
    ensures Dot(t, d) == t[0] as real * d[0] + t[1] as real * d[1] + t[2] as real * d[2]
                         + t[3] as real * d[3] + t[4] as real * d[4] + t[5] as real * d[5]
  {
    assert t == t[..3] + t[3..] && d == d[..3] + d[3..];
    DotAppend(t[..3], t[3..], d[..3], d[3..]);
    DotOfThree(t[..3], d[..3]);
    DotOfThree(t[3..], d[3..]);
  }

  /** The sum of products of twelve entries, written out. */
  lemma DotOfTwelve(t: seq<int>, d: seq<real>)
    requires |t| == 12 && |d| == 12
    ensures Dot(t, d) == t[0] as real * d[0] + t[1] as real * d[1] + t[2] as real * d[2]
                         + t[3] as real * d[3] + t[4] as real * d[4] + t[5] as real * d[5]
                         + t[6] as real * d[6] + t[7] as real * d[7] + t[8] as real * d[8]
                         + t[9] as real * d[9] + t[10] as real * d[10] + t[11] as real * d[11]
  {
    assert t == t[..6] + t[6..] && d == d[..6] + d[6..];
    DotAppend(t[..6], t[6..], d[..6], d[6..]);
    DotOfSix(t[..6], d[..6]);
    DotOfSix(t[6..], d[6..]);
  }

  /** The two templates share the tonic, second, fourth and fifth; the
      major one differs from the minor one by a major instead of a minor
      third, sixth and seventh. */
  lemma MajorMinusMinor(d: seq<real>)
    requires |d| == 12
    ensures Dot(MajorProfile, d) - Dot(MinorProfile, d)
            == (d[4] + d[9] + d[11]) - (d[3] + d[8] + d[10])
  {
    DotOfTwelve(MajorProfile, d);
    DotOfTwelve(MinorProfile, d);
  }

  /** What `extract_key` reports about the key. */
  datatype KeyLabel = KeyLabel(key: string, pitchClass: string, mode: string)

  /** `extract_key`'s decision: the tonic is the first strongest pitch
      class; both templates are rolled onto it and scored, and the mode is
      major only when the major score is strictly larger. */
  function DetectKey(chroma: ChromaVector): (k: KeyLabel)
    ensures k.key == k.pitchClass + " " + k.mode
    ensures k.mode == "major" || k.mode == "minor"
    ensures k.pitchClass in PitchClasses
  {
    var tonic := Argmax(chroma);
    var major := Dot(Roll(MajorProfile, tonic), chroma);
    var minor := Dot(Roll(MinorProfile, tonic), chroma);
    var mode := if major > minor then "major" else "minor";
    var pitchClass := PitchClasses[tonic];
    KeyLabel(pitchClass + " " + mode, pitchClass, mode)
  }

  /** The reported pitch class names the first pitch class of greatest
      strength. */
  lemma TonicIsFirstStrongest(chroma: ChromaVector)
    ensures exists i :: 0 <= i < 12 && DetectKey(chroma).pitchClass == PitchClasses[i]
                        && (forall k :: 0 <= k < 12 ==> chroma[k] <= chroma[i])
                        && (forall k :: 0 <= k < i ==> chroma[k] < chroma[i])
  {
    var i := Argmax(chroma);
    ArgmaxIsFirstMaximum(chroma);
    assert DetectKey(chroma).pitchClass == PitchClasses[i];
  }

  /** The mode in scale degrees above the tonic `i`: major exactly when the
      major third, sixth and seventh together outweigh the minor third,
      sixth and seventh; equal weight gives minor. */
  lemma ModeByScaleDegrees(chroma: ChromaVector)
    ensures var i := Argmax(chroma);
            var d := RotateLeft(chroma, i);
            DetectKey(chroma).mode == "major" <==> d[4] + d[9] + d[11] > d[3] + d[8] + d[10]
  {
    var i := Argmax(chroma);
    var d := RotateLeft(chroma, i);
    RolledTemplate(MajorProfile, chroma, i);
    RolledTemplate(MinorProfile, chroma, i);
    MajorMinusMinor(d);
  }

  /** A flat chroma vector, as pure silence gives, is labelled C minor. */
  lemma FlatChromaIsCMinor(x: real)
    ensures DetectKey([x, x, x, x, x, x, x, x, x, x, x, x]) == KeyLabel("C minor", "C", "minor")
  {
    var chroma: ChromaVector := [x, x, x, x, x, x, x, x, x, x, x, x];
    FirstOfEqualIsTonic(chroma);
    ModeByScaleDegrees(chroma);
    assert RotateLeft(chroma, 0) == chroma;
  }

  lemma FirstOfEqualIsTonic(xs: seq<real>)
    requires |xs| > 0 && forall k :: 0 <= k < |xs| ==> xs[k] == xs[0]
    ensures Argmax(xs) == 0
  {
    ArgmaxIsFirstMaximum(xs);
  }

  /** The key label falls apart at its space into the pitch class and the
      mode again. */
  lemma KeyLabelSplits(chroma: ChromaVector)
    ensures Split(DetectKey(chroma).key, ' ') == [DetectKey(chroma).pitchClass, DetectKey(chroma).mode]
  {
    var k := DetectKey(chroma);
    PitchClassNamesUnspaced();
    LabelSplits(k.pitchClass, k.mode);
  }

  lemma PitchClassNamesUnspaced()
    ensures forall name :: name in PitchClasses ==> ' ' !in name
  {
  }

  lemma LabelSplits(pitchClass: string, mode: string)
    requires ' ' !in pitchClass && ' ' !in mode
    ensures Split(pitchClass + " " + mode, ' ') == [pitchClass, mode]
  {
    SplitJoin([pitchClass, mode], ' ');
    assert Join([pitchClass, mode], ' ') == pitchClass + " " + mode by {
      assert [pitchClass, mode][1..] == [mode];
    }
  }

  // ---------------------------------------------------------------------
  // The result dictionary
  // ---------------------------------------------------------------------

  /** A JSON value in the result. */
  datatype Value = Number(x: real) | Whole(n: int) | Numbers(xs: seq<real>) | Label(s: string)

  /** The keys a result can hold; `FieldName` gives the text of each. */
  datatype Field =
    | Duration | SampleRate | Samples
    | TempoBpm | Beats | BeatCount
    | KeyText | Confidence | PitchClass | ModeText
    | EnergyMean | EnergyVariance | EnergyMax | EnergyMin | ZeroCrossingRate
    | SpectralCentroid | SpectralCentroidVariance | SpectralRolloff
    | SpectralBandwidth | SpectralContrast | SpectralFlatness
    | MfccMeans | MfccVariances | MfccCount
    | ChromaStft | ChromaCqt | ChromaCens

  function FieldName(f: Field): string {
    match f
    case Duration => "duration"
    case SampleRate => "sample_rate"
    case Samples => "samples"
    case TempoBpm => "tempo"
    case Beats => "beats"
    case BeatCount => "beat_count"
    case KeyText => "key"
    case Confidence => "confidence"
    case PitchClass => "pitch_class"
    case ModeText => "mode"
    case EnergyMean => "energy"
    case EnergyVariance => "energy_variance"
    case EnergyMax => "energy_max"
    case EnergyMin => "energy_min"
    case ZeroCrossingRate => "zero_crossing_rate"
    case SpectralCentroid => "spectral_centroid"
    case SpectralCentroidVariance => "spectral_centroid_variance"
    case SpectralRolloff => "spectral_rolloff"
    case SpectralBandwidth => "spectral_bandwidth"
    case SpectralContrast => "spectral_contrast"
    case SpectralFlatness => "spectral_flatness"
    case MfccMeans => "mfcc"
    case MfccVariances => "mfcc_variance"
    case MfccCount => "n_mfcc"
    case ChromaStft => "chroma_stft"
    case ChromaCqt => "chroma_cqt"
    case ChromaCens => "chroma_cens"
  }

  /** The extractor whose dictionary holds a key; `None` for the three
      keys every result starts with. */
  function Owner(f: Field): Option<Extractor> {
    match f
    case Duration | SampleRate | Samples => None
    case TempoBpm | Beats | BeatCount => Some(Tempo)
    case KeyText | Confidence | PitchClass | ModeText => Some(Key)
    case EnergyMean | EnergyVariance | EnergyMax | EnergyMin | ZeroCrossingRate => Some(Energy)
    case SpectralCentroid | SpectralCentroidVariance | SpectralRolloff
       | SpectralBandwidth | SpectralContrast | SpectralFlatness => Some(Spectral)
    case MfccMeans | MfccVariances | MfccCount => Some(Mfcc)
    case ChromaStft | ChromaCqt | ChromaCens => Some(Chroma)
  }

  /** What librosa computes for a loaded file, as the extractors report it:
      beat times, the mean chroma (shared by the key and chroma
      extractors, which both average `chroma_stft` over time), the key
      confidence ratio, and the means, variances and extremes of the
      energy, spectral and MFCC features. */
  datatype Measurements = Measurements(
    tempo: real, beatTimes: seq<real>,
    chroma: ChromaVector, keyConfidence: real,
    rmsMean: real, rmsVariance: real, rmsMax: real, rmsMin: real, zeroCrossingRate: real,
    centroidMean: real, centroidVariance: real, rolloffMean: real, bandwidthMean: real,
    contrastMeans: seq<real>, flatnessMean: real,
    mfccMeans: seq<real>, mfccVariances: seq<real>,
    chromaCqt: seq<real>, chromaCens: seq<real>)

  /** A loaded file: duration in seconds, native sample rate, number of
      samples, and what the extractors compute on it. */
  datatype Loaded = Loaded(duration: real, sampleRate: int, samples: nat, measured: Measurements)

  /** The number of MFCCs `extract_mfcc` asks for. */
  const MfccNumber: int := 13

  /** The dictionary `analyze_audio` starts from. */
  function BaseEntries(a: Loaded): (entries: map<Field, Value>)
    ensures forall f :: f in entries <==> Owner(f).None?
  {
    map[Duration := Number(a.duration), SampleRate := Whole(a.sampleRate), Samples := Whole(a.samples)]
  }

  /** `extract_tempo`: the tempo, the beat times and how many beats. */
  function TempoEntries(m: Measurements): (entries: map<Field, Value>)
    ensures forall f :: f in entries <==> Owner(f) == Some(Tempo)
  {
    map[TempoBpm := Number(m.tempo), Beats := Numbers(m.beatTimes), BeatCount := Whole(|m.beatTimes|)]
  }

  /** `extract_key`: the key label, its parts and the confidence ratio. */
  function KeyEntries(m: Measurements): (entries: map<Field, Value>)
    ensures forall f :: f in entries <==> Owner(f) == Some(Key)
  {
    var k := DetectKey(m.chroma);
    map[KeyText := Label(k.key), Confidence := Number(m.keyConfidence),
        PitchClass := Label(k.pitchClass), ModeText := Label(k.mode)]
  }

  /** `extract_energy`: statistics of the RMS energy and the mean zero
      crossing rate. */
  function EnergyEntries(m: Measurements): (entries: map<Field, Value>)
    ensures forall f :: f in entries <==> Owner(f) == Some(Energy)
  {
    map[EnergyMean := Number(m.rmsMean), EnergyVariance := Number(m.rmsVariance),
        EnergyMax := Number(m.rmsMax), EnergyMin := Number(m.rmsMin),
        ZeroCrossingRate := Number(m.zeroCrossingRate)]
  }

  /** `extract_spectral`: centroid, rolloff, bandwidth, contrast and
      flatness summaries. */
  function SpectralEntries(m: Measurements): (entries: map<Field, Value>)
    ensures forall f :: f in entries <==> Owner(f) == Some(Spectral)
  {
    map[SpectralCentroid := Number(m.centroidMean),
        SpectralCentroidVariance := Number(m.centroidVariance),
        SpectralRolloff := Number(m.rolloffMean), SpectralBandwidth := Number(m.bandwidthMean),
        SpectralContrast := Numbers(m.contrastMeans), SpectralFlatness := Number(m.flatnessMean)]
  }

  /** `extract_mfcc`: the coefficient means and variances and their
      number. */
  function MfccEntries(m: Measurements): (entries: map<Field, Value>)
    ensures forall f :: f in entries <==> Owner(f) == Some(Mfcc)
  {
    map[MfccMeans := Numbers(m.mfccMeans), MfccVariances := Numbers(m.mfccVariances),
        MfccCount := Whole(MfccNumber)]
  }

  /** `extract_chroma`: the three mean chroma vectors. */
  function ChromaEntries(m: Measurements): (entries: map<Field, Value>)
    ensures forall f :: f in entries <==> Owner(f) == Some(Chroma)
  {
    map[ChromaStft := Numbers(m.chroma), ChromaCqt := Numbers(m.chromaCqt), ChromaCens := Numbers(m.chromaCens)]
  }

  /** The dictionary one extractor returns: exactly the keys it owns. */
  function ExtractorEntries(e: Extractor, a: Loaded): (entries: map<Field, Value>)
    ensures forall f :: f in entries <==> Owner(f) == Some(e)
  {
    match e
    case Tempo => TempoEntries(a.measured)
    case Key => KeyEntries(a.measured)
    case Energy => EnergyEntries(a.measured)
    case Spectral => SpectralEntries(a.measured)
    case Mfcc => MfccEntries(a.measured)
    case Chroma => ChromaEntries(a.measured)
  }

  /** The value a key gets from the dictionary that holds it. */
  function Produced(f: Field, a: Loaded): Value {
    match Owner(f)
    case None => BaseEntries(a)[f]
    case Some(e) => ExtractorEntries(e, a)[f]
  }

  /** A key belongs in the result when it is a base key or its extractor
      runs. */
  predicate Included(features: seq<string>, f: Field) {
    Owner(f).None? || Runs(features, Owner(f).value)
  }

  /** What a result holds for a request: the base keys and the keys of
      every extractor that runs, nothing else, each with the value its
      dictionary gives it. */
  predicate Reports(results: map<Field, Value>, features: seq<string>, a: Loaded) {
    forall f :: && (f in results <==> Included(features, f))
                && (f in results ==> results[f] == Produced(f, a))
  }

  /** The position of an extractor among the six guarded updates. */
  function Rank(e: Extractor): nat {
    match e
    case Tempo => 0
    case Key => 1
    case Energy => 2
    case Spectral => 3
    case Mfcc => 4
    case Chroma => 5
  }

  /** What the result holds once the first `n` guarded updates are done. */
  predicate ReportsFirst(results: map<Field, Value>, features: seq<string>, a: Loaded, n: nat) {
    forall f :: && (f in results <==> Owner(f).None? || (Runs(features, Owner(f).value) && Rank(Owner(f).value) < n))
                && (f in results ==> results[f] == Produced(f, a))
  }

  /** The dictionary once the first `n` guarded updates are done. */
  function ReportAfter(features: seq<string>, a: Loaded, n: nat): map<Field, Value>
    requires n <= |Extractors|
  {
    if n == 0 then BaseEntries(a)
    else
      var e := Extractors[n - 1];
      var before := ReportAfter(features, a, n - 1);
      if Runs(features, e) then before + ExtractorEntries(e, a) else before
  }

  /** One guarded update takes the dictionary after `n` updates to the one
      after `n + 1`. */
  lemma UpdateStep(results: map<Field, Value>, features: seq<string>, a: Loaded, n: nat)
    requires n < |Extractors| && results == ReportAfter(features, a, n)
    ensures Runs(features, Extractors[n]) ==> results + ExtractorEntries(Extractors[n], a) == ReportAfter(features, a, n + 1)
    ensures !Runs(features, Extractors[n]) ==> results == ReportAfter(features, a, n + 1)
  {
  }

  /** Each guarded update adds its extractor's keys when it runs and
      overwrites none of the keys already there. */
  lemma {:induction false} ReportAfterHolds(features: seq<string>, a: Loaded, n: nat)
    requires n <= |Extractors|
    ensures ReportsFirst(ReportAfter(features, a, n), features, a, n)
  {
    if n > 0 {
      ReportAfterHolds(features, a, n - 1);
      assert Rank(Extractors[n - 1]) == n - 1;
    }
  }

  /** After all six guarded updates the result holds what the request
      asks for. */
  lemma AllUpdatesDone(results: map<Field, Value>, features: seq<string>, a: Loaded, n: nat)
    requires n == |Extractors| && results == ReportAfter(features, a, n)
    ensures Reports(results, features, a)
  {
    ReportAfterHolds(features, a, n);
    forall f ensures f in results <==> Included(features, f) {
      assert Owner(f).Some? ==> Rank(Owner(f).value) < n;
    }
  }

  /** Why `analyze_audio` gives up before extracting anything. */
  datatype AnalysisError = FileNotFound(message: string) | LoadFailed(message: string)

  /** `analyze_audio`: refuses a missing file, then a file librosa cannot
      load, and otherwise starts from the base dictionary and adds the
      dictionary of each selected extractor in turn. Whether the file
      exists and what loading it gives are inputs. */
  method AnalyzeAudio(audioPath: string, features: seq<string>, audioExists: bool, load: Result<Loaded, string>)
    returns (r: Result<map<Field, Value>, AnalysisError>)
    ensures !audioExists ==> r == Failure(FileNotFound("Audio file not found: " + audioPath))
    ensures audioExists && load.Failure? ==> r == Failure(LoadFailed("Failed to load audio file: " + load.error))
    ensures r.Success? <==> audioExists && load.Success?
    ensures r.Success? ==> Reports(r.value, features, load.value)
  {
    if !audioExists {
      return Failure(FileNotFound("Audio file not found: " + audioPath));
    }
    if load.Failure? {
      return Failure(LoadFailed("Failed to load audio file: " + load.error));
    }
    var a := load.value;
    var results := BaseEntries(a);
    var extractAll := "all" in features;
    ghost var done := 0;
    assert done == 0 && Extractors[done] == Tempo;
    assert Runs(features, Tempo) == (extractAll || "tempo" in features);
    UpdateStep(results, features, a, done);
    if extractAll || "tempo" in features {
      results := results + ExtractorEntries(Tempo, a);
    }
    done := done + 1;
    assert done == 1 && Extractors[done] == Key;
    assert Runs(features, Key) == (extractAll || "key" in features);
    UpdateStep(results, features, a, done);
    if extractAll || "key" in features {
      results := results + ExtractorEntries(Key, a);
    }
    done := done + 1;
    assert done == 2 && Extractors[done] == Energy;
    assert Runs(features, Energy) == (extractAll || "energy" in features);
    UpdateStep(results, features, a, done);
    if extractAll || "energy" in features {
      results := results + ExtractorEntries(Energy, a);
    }
    done := done + 1;
    assert done == 3 && Extractors[done] == Spectral;
    assert Runs(features, Spectral) == (extractAll || "spectral" in features);
    UpdateStep(results, features, a, done);
    if extractAll || "spectral" in features {
      results := results + ExtractorEntries(Spectral, a);
    }
    done := done + 1;
    assert done == 4 && Extractors[done] == Mfcc;
    assert Runs(features, Mfcc) == (extractAll || "mfcc" in features);
    UpdateStep(results, features, a, done);
    if extractAll || "mfcc" in features {
      results := results + ExtractorEntries(Mfcc, a);
    }
    done := done + 1;
    assert done == 5 && Extractors[done] == Chroma;
    assert Runs(features, Chroma) == (extractAll || "chroma" in features);
    UpdateStep(results, features, a, done);
    if extractAll || "chroma" in features {
      results := results + ExtractorEntries(Chroma, a);
    }
    done := done + 1;
    AllUpdatesDone(results, features, a, done);
    return Success(results);
  }

  /** Every result reports the duration, sample rate and sample count of
      the loaded file, whatever was requested. */
  lemma BaseAlwaysReported(results: map<Field, Value>, features: seq<string>, a: Loaded)
    requires Reports(results, features, a)
    ensures Duration in results && results[Duration] == Number(a.duration)
    ensures SampleRate in results && results[SampleRate] == Whole(a.sampleRate)
    ensures Samples in results && results[Samples] == Whole(a.samples)
  {
    assert Included(features, Duration) && Included(features, SampleRate) && Included(features, Samples);
  }

  /** There is only one result a request can report. */
  lemma ReportsDetermined(r1: map<Field, Value>, r2: map<Field, Value>, features: seq<string>, a: Loaded)
    requires Reports(r1, features, a) && Reports(r2, features, a)
    ensures r1 == r2
  {
    assert r1.Keys == r2.Keys;
  }

  /** When the key and chroma extractors both run, the reported pitch class
      is the first strongest entry of the reported `chroma_stft` vector. */
  lemma KeyAgreesWithChroma(results: map<Field, Value>, features: seq<string>, a: Loaded)
    requires Reports(results, features, a)
    requires Runs(features, Key) && Runs(features, Chroma)
    ensures ChromaStft in results && results[ChromaStft].Numbers? && |results[ChromaStft].xs| == 12
    ensures PitchClass in results
    ensures results[PitchClass] == Label(PitchClasses[Argmax(results[ChromaStft].xs)])
  {
    ReportedValue(results, features, a, ChromaStft);
    ReportedValue(results, features, a, PitchClass);
    ProducedKeyAndChroma(a);
  }

  lemma ReportedValue(results: map<Field, Value>, features: seq<string>, a: Loaded, f: Field)
    requires Reports(results, features, a) && Included(features, f)
    ensures f in results && results[f] == Produced(f, a)
  {
  }

  lemma ProducedKeyAndChroma(a: Loaded)
    ensures Produced(ChromaStft, a) == Numbers(a.measured.chroma)
    ensures Produced(PitchClass, a) == Label(PitchClasses[Argmax(a.measured.chroma)])
  {
    var m := a.measured;
    assert Produced(ChromaStft, a) == ChromaEntries(m)[ChromaStft];
    assert DetectKey(m.chroma).pitchClass == PitchClasses[Argmax(m.chroma)];
    assert Produced(PitchClass, a) == KeyEntries(m)[PitchClass];
  }

  /** How a run of the analyzer ends: the result dictionary on standard
      output, or one of the error objects on standard error. */
  datatype Outcome =
    | Printed(results: map<Field, Value>)
    | InvalidFeatures(invalid: set<string>)
    | FileMissing(message: string)
    | InvalidAudio(message: string)

  /** The exit status of each outcome. */
  function ExitCode(o: Outcome): (code: int)
    ensures code == 0 <==> o.Printed?
    ensures code == 0 || code == 1
  {
    if o.Printed? then 0 else 1
  }

  /** `main`: parse and validate the feature list, and only for a valid one
      analyze the file, turning the two errors into their messages. */
  method RunAnalyzer(audioPath: string, featuresArg: string, audioExists: bool, load: Result<Loaded, string>)
    returns (o: Outcome)
    ensures var features := ParseFeatures(featuresArg);
            o.InvalidFeatures? <==> exists k :: 0 <= k < |features| && features[k] !in ValidFeatures
    ensures o.InvalidFeatures? ==> o.invalid == InvalidNames(ParseFeatures(featuresArg))
    ensures !o.InvalidFeatures? ==>
              && (o.FileMissing? <==> !audioExists)
              && (o.FileMissing? ==> o.message == "Audio file not found: " + audioPath)
              && (o.InvalidAudio? <==> audioExists && load.Failure?)
              && (o.InvalidAudio? ==> o.message == "Failed to load audio file: " + load.error)
              && (o.Printed? <==> audioExists && load.Success?)
              && (o.Printed? ==> Reports(o.results, ParseFeatures(featuresArg), load.value))
  {
    var features := ParseFeatures(featuresArg);
    match ValidateFeatures(features)
    case Failure(invalid) =>
      return InvalidFeatures(invalid);
    case Success(_) =>
      var r := AnalyzeAudio(audioPath, features, audioExists, load);
      match r
      case Failure(FileNotFound(message)) =>
        return FileMissing(message);
      case Failure(LoadFailed(message)) =>
        return InvalidAudio(message);
      case Success(results) =>
        return Printed(results);
  }
}
