/**
 * The training driver: choosing a descriptor by name from the settings, and
 * assembling the training images and their parallel label vector (positives
 * first, then negatives, optionally converted to grayscale).  Images are
 * opaque values of a type parameter `I`; the colour conversion is an opaque
 * function `gray` from one image to one image.
 */
module Train {
  import opened Wrappers

  /** One section of the YAML settings: its keys and their values. */
  type Section = map<string, string>

  /** The loaded settings: section name to section. */
  type Settings = map<string, Section>

  /**
   * What the descriptor lookup can produce.  A descriptor object carries the
   * settings section it was built from (its internals are not modelled);
   * `FallbackString` is a bare string standing where a descriptor should be.
   */
  datatype Descriptor =
    | Hog(config: Section)
    | Lbp(config: Section)
    | Haar(config: Section)
    | FallbackString(text: string)

  /** A real descriptor object, as opposed to the fallback string. */
  predicate IsDescriptorObject(d: Descriptor) {
    !d.FallbackString?
  }

  /** The Python `KeyError` raised by a missing settings key. */
  datatype ConfigError = KeyError(key: string)

  /** Every key the lookup reads: the three descriptor sections, then
      `train` and its `descriptor` entry. */
  predicate HasDescriptorKeys(settings: Settings) {
    && "hog" in settings && "lbp" in settings && "haar" in settings
    && "train" in settings && "descriptor" in settings["train"]
  }

  /** `settings['train']['descriptor']`. */
  function DescriptorName(settings: Settings): string
    requires HasDescriptorKeys(settings)
  {
    settings["train"]["descriptor"]
  }

  /** The key whose absence makes the lookup fail, named as Python reads
      them: the dict literal's three values first, then the chosen name. */
  function FirstMissingKey(settings: Settings): string
    requires !HasDescriptorKeys(settings)
  {
    if "hog" !in settings then "hog"
    else if "lbp" !in settings then "lbp"
    else if "haar" !in settings then "haar"
    else if "train" !in settings then "train"
    else "descriptor"
  }

  /** `dict.get(key, default)`. */
  function Get<K, V>(m: map<K, V>, key: K, default: V): V {
    if key in m then m[key] else default
  }

  /** The dict literal of `load_descriptor`: all three descriptors are built
      from their sections before any lookup happens. */
  function DescriptorTable(settings: Settings): map<string, Descriptor>
    requires "hog" in settings && "lbp" in settings && "haar" in settings
  {
    map["hog" := Hog(settings["hog"]), "lbp" := Lbp(settings["lbp"]), "haar" := Haar(settings["haar"])]
  }

  /**
   * `load_descriptor(settings)` as written: the descriptor named by
   * `settings['train']['descriptor']`, and for any other name the STRING
   * 'hog' rather than a HOG descriptor.  A missing section fails whatever
   * name was chosen.
   */
  function LoadDescriptor(settings: Settings): (r: Result<Descriptor, ConfigError>)
    ensures r.Success? <==> HasDescriptorKeys(settings)
    ensures r.Failure? ==> r.error.key == FirstMissingKey(settings)
    ensures r.Success? ==> (r.value == Hog(settings["hog"]) <==> DescriptorName(settings) == "hog")
    ensures r.Success? ==> (r.value == Lbp(settings["lbp"]) <==> DescriptorName(settings) == "lbp")
    ensures r.Success? ==> (r.value == Haar(settings["haar"]) <==> DescriptorName(settings) == "haar")
    ensures r.Success? ==>
              (r.value == FallbackString("hog") <==> DescriptorName(settings) !in {"hog", "lbp", "haar"})
  {
    if !HasDescriptorKeys(settings) then Failure(KeyError(FirstMissingKey(settings)))
    else Success(Get(DescriptorTable(settings), DescriptorName(settings), FallbackString("hog")))
  }

  /** The lookup as written hands back something that is not a descriptor
      object for every unrecognised name, e.g. "sift". */
  lemma UnknownNameYieldsString(settings: Settings)
    requires HasDescriptorKeys(settings) && DescriptorName(settings) !in {"hog", "lbp", "haar"}
    ensures LoadDescriptor(settings).Success?
    ensures !IsDescriptorObject(LoadDescriptor(settings).value)
  {
  }

  /**
   * The lookup with the default its comment announces: an unrecognised name
   * selects the HOG descriptor built from the `hog` section.
   */
  function LoadDescriptorDefaultHog(settings: Settings): (r: Result<Descriptor, ConfigError>)
    ensures r.Success? <==> HasDescriptorKeys(settings)
    ensures r.Failure? ==> r.error.key == FirstMissingKey(settings)
    ensures r.Success? ==> IsDescriptorObject(r.value)
    ensures r.Success? ==>
              (r.value == Hog(settings["hog"]) <==> DescriptorName(settings) != "lbp" && DescriptorName(settings) != "haar")
    ensures r.Success? ==> (r.value == Lbp(settings["lbp"]) <==> DescriptorName(settings) == "lbp")
    ensures r.Success? ==> (r.value == Haar(settings["haar"]) <==> DescriptorName(settings) == "haar")
  {
    if !HasDescriptorKeys(settings) then Failure(KeyError(FirstMissingKey(settings)))
    else
      var table := DescriptorTable(settings);
      Success(Get(table, DescriptorName(settings), table["hog"]))
  }

  /** The corrected lookup differs from the one as written only where the
      latter returned the fallback string. */
  lemma DefaultHogDiffersOnlyOnFallback(settings: Settings)
    ensures LoadDescriptorDefaultHog(settings)
            == if LoadDescriptor(settings) == Success(FallbackString("hog"))
               then Success(Hog(settings["hog"]))
               else LoadDescriptor(settings)
  {
  }

  /** Python's `[v] * n`. */
  function Repeat(v: int, n: nat): (r: seq<int>)
    ensures |r| == n
    ensures forall i :: 0 <= i < n ==> r[i] == v
  {
    if n == 0 then [] else [v] + Repeat(v, n - 1)
  }

  /** `[1] * len(positive_images) + [0] * len(negative_images)`. */
  function Labels(positives: nat, negatives: nat): (labels: seq<int>)
    ensures |labels| == positives + negatives
    ensures forall i :: 0 <= i < |labels| ==> (labels[i] == 1 <==> i < positives)
    ensures forall i :: 0 <= i < |labels| ==> labels[i] == 0 || labels[i] == 1
  {
    Repeat(1, positives) + Repeat(0, negatives)
  }

  /** The comprehension `[cv2.cvtColor(img, ...) for img in images]`. */
  function ToGray<I>(images: seq<I>, gray: I -> I): (r: seq<I>)
    ensures |r| == |images|
    ensures forall i :: 0 <= i < |images| ==> r[i] == gray(images[i])
  {
    seq(|images|, i requires 0 <= i < |images| => gray(images[i]))
  }

  /** The training images are the positives followed by the negatives, and
      the label vector is `[1] * P + [0] * N` for those two counts. */
  ghost predicate LabelsAligned<I>(images: seq<I>, labels: seq<int>, positives: seq<I>, negatives: seq<I>) {
    images == positives + negatives && labels == Labels(|positives|, |negatives|)
  }

  /** Under an aligned label vector each image sits at the index of its
      label: `images[i]` is positive `i` exactly when `labels[i] == 1`, and
      negative `i - P` exactly when `labels[i] == 0`. */
  lemma AlignedLabelMarksPositives<I>(images: seq<I>, labels: seq<int>, positives: seq<I>, negatives: seq<I>, i: int)
    requires LabelsAligned(images, labels, positives, negatives)
    requires 0 <= i < |labels|
    ensures i < |images|
    ensures labels[i] == 1 <==> i < |positives|
    ensures labels[i] == 0 <==> |positives| <= i
    ensures images[i] == if i < |positives| then positives[i] else negatives[i - |positives|]
  {
  }

  /** Converting every image keeps the count and the order, so the label
      vector stays aligned with the converted positives and negatives. */
  lemma GrayKeepsAlignment<I>(images: seq<I>, labels: seq<int>, positives: seq<I>, negatives: seq<I>, gray: I -> I)
    requires LabelsAligned(images, labels, positives, negatives)
    ensures LabelsAligned(ToGray(images, gray), labels, ToGray(positives, gray), ToGray(negatives, gray))
  {
    var g, gp, gn := ToGray(images, gray), ToGray(positives, gray), ToGray(negatives, gray);
    forall k | 0 <= k < |g|
      ensures g[k] == (gp + gn)[k]
    {
      if k >= |positives| {
        assert images[k] == negatives[k - |positives|];
      }
    }
    assert g == gp + gn;
  }

  /** The images handed to the classifier: converted to grayscale exactly
      when the configured name is not 'hog', unknown names included. */
  function Prepared<I>(settings: Settings, images: seq<I>, gray: I -> I): seq<I>
    requires HasDescriptorKeys(settings)
  {
    if DescriptorName(settings) != "hog" then ToGray(images, gray) else images
  }

  /** Which descriptor lookup the driver calls: `load_descriptor` as written,
      or the corrected lookup that defaults to the HOG descriptor. */
  datatype Lookup = AsWritten | DefaultHog

  function SelectDescriptor(lookup: Lookup, settings: Settings): Result<Descriptor, ConfigError> {
    match lookup
    case AsWritten => LoadDescriptor(settings)
    case DefaultHog => LoadDescriptorDefaultHog(settings)
  }

  /** Every settings key the driver reads before the call of `train`: those of
      the lookup, `svm.C`, and the two image directories and the window size
      of the `train` section. */
  predicate HasDriverKeys(settings: Settings) {
    && HasDescriptorKeys(settings)
    && "svm" in settings && "C" in settings["svm"]
    && "positive_image_directory" in settings["train"]
    && "negative_image_directory" in settings["train"]
    && "window_size" in settings["train"]
  }

  /** The key whose absence stops the driver, in the order the driver reads
      them: the lookup's keys, then `svm`, `C`, `positive_image_directory`,
      `negative_image_directory` and `window_size`. */
  function FirstMissingDriverKey(settings: Settings): string
    requires !HasDriverKeys(settings)
  {
    if !HasDescriptorKeys(settings) then FirstMissingKey(settings)
    else if "svm" !in settings then "svm"
    else if "C" !in settings["svm"] then "C"
    else if "positive_image_directory" !in settings["train"] then "positive_image_directory"
    else if "negative_image_directory" !in settings["train"] then "negative_image_directory"
    else "window_size"
  }

  /** What the driver hands to the classifier: the descriptor and `C` the SVM
      is built with, and the images and labels given to `train`. */
  datatype TrainingSet<I> = TrainingSet(descriptor: Descriptor, c: string, images: seq<I>, labels: seq<int>)

  /**
   * The driver from choosing the descriptor to the call of `train`, with
   * `positives` and `negatives` the images already read and resized:
   * positives joined before negatives, grayscale conversion when the name is
   * not 'hog', and the parallel label vector.  `lookup` says which descriptor
   * lookup it calls.
   */
  function PrepareTraining<I>(lookup: Lookup, settings: Settings, positives: seq<I>, negatives: seq<I>, gray: I -> I)
    : (r: Result<TrainingSet<I>, ConfigError>)
    ensures r.Success? <==> HasDriverKeys(settings)
    ensures r.Failure? ==> r.error.key == FirstMissingDriverKey(settings)
    ensures r.Success? ==> SelectDescriptor(lookup, settings).Success?
    ensures r.Success? ==> r.value.descriptor == SelectDescriptor(lookup, settings).value
    ensures r.Success? ==> r.value.c == settings["svm"]["C"]
    ensures r.Success? && lookup == DefaultHog ==> IsDescriptorObject(r.value.descriptor)
    ensures r.Success? ==> |r.value.images| == |r.value.labels| == |positives| + |negatives|
    ensures r.Success? ==>
              LabelsAligned(r.value.images, r.value.labels,
                            Prepared(settings, positives, gray), Prepared(settings, negatives, gray))
    ensures r.Success? ==> forall i :: 0 <= i < |r.value.labels| ==> (r.value.labels[i] == 1 <==> i < |positives|)
  {
    var descriptor :- SelectDescriptor(lookup, settings);
    if !HasDriverKeys(settings) then Failure(KeyError(FirstMissingDriverKey(settings)))
    else
      var c := settings["svm"]["C"];
      var joined := positives + negatives;
      var labels := Labels(|positives|, |negatives|);
      var images := if DescriptorName(settings) != "hog" then ToGray(joined, gray) else joined;
      Success(TrainingSet(descriptor, c, images, labels))
  }

  /** The driver as written passes the string 'hog' to the classifier for an
      unrecognised name; with the corrected lookup it passes the HOG
      descriptor built from the `hog` section. */
  lemma UnknownNameReachesClassifier<I>(settings: Settings, positives: seq<I>, negatives: seq<I>, gray: I -> I)
    requires HasDriverKeys(settings) && DescriptorName(settings) !in {"hog", "lbp", "haar"}
    ensures PrepareTraining(AsWritten, settings, positives, negatives, gray).Success?
    ensures PrepareTraining(AsWritten, settings, positives, negatives, gray).value.descriptor == FallbackString("hog")
    ensures PrepareTraining(DefaultHog, settings, positives, negatives, gray).Success?
    ensures PrepareTraining(DefaultHog, settings, positives, negatives, gray).value.descriptor == Hog(settings["hog"])
  {
    DefaultHogDiffersOnlyOnFallback(settings);
  }

  /** Whatever name is configured, the images keep their number and order:
      image `i` is the (possibly converted) positive `i`, or negative
      `i - P`, and it is a positive exactly when its label is 1. */
  lemma PreparedImagesTrackSources<I>(lookup: Lookup, settings: Settings, positives: seq<I>, negatives: seq<I>, gray: I -> I, i: int)
    requires PrepareTraining(lookup, settings, positives, negatives, gray).Success?
    requires 0 <= i < |positives| + |negatives|
    ensures var ts := PrepareTraining(lookup, settings, positives, negatives, gray).value;
              var source := (positives + negatives)[i];
              && ts.images[i] == (if DescriptorName(settings) != "hog" then gray(source) else source)
              && (ts.labels[i] == 1 <==> i < |positives|)
  {
    var ts := PrepareTraining(lookup, settings, positives, negatives, gray).value;
    var p := Prepared(settings, positives, gray);
    var n := Prepared(settings, negatives, gray);
    assert |p| == |positives| && |n| == |negatives|;
    AlignedLabelMarksPositives(ts.images, ts.labels, p, n, i);
  }
}
