/** The label policy: which detections get censored (main.py lines 13-18,
    49-54 and 90-91). */
module Labels {
  import opened Optional
  import opened Transform

  /** One result of the detector: its label (the `"label"` key; `label` is a Dafny keyword) and its box. */
  datatype Detection = Detection(name: string, box: Box)

  /** The labels censored when the caller names none (main.py lines 13-18). */
  const CensoredLabels: seq<string> :=
    ["EXPOSED_GENITALIA_F", "COVERED_GENITALIA_F", "EXPOSED_BREAST_F", "EXPOSED_BUTTOCKS"]

  /** The policy `AutoCensor.__init__` settles on: the default list only when
      no list is passed at all (main.py lines 50-54). */
  function ResolveLabels(censored: Option<seq<string>>): (labels: seq<string>)
    ensures censored.None? ==> labels == CensoredLabels
    ensures censored.Some? ==> labels == censored.value
  {
    match censored
    case None => CensoredLabels
    case Some(given) => given
  }

  /** List membership, as `label in self.censored_labels` tests it (main.py line 91). */
  predicate Admits(labels: seq<string>, name: string)
  {
    name in labels
  }

  /** The detections the loop at main.py lines 90-91 acts on, in result order. */
  function Censored(results: seq<Detection>, labels: seq<string>): (r: seq<Detection>)
    ensures |r| <= |results|
  {
    if results == [] then []
    else if Admits(labels, results[0].name) then [results[0]] + Censored(results[1..], labels)
    else Censored(results[1..], labels)
  }

  /** A detection is acted on exactly when it is among the results and its
      label is admitted. */
  lemma {:induction false} CensoredMembership(results: seq<Detection>, labels: seq<string>, d: Detection)
    ensures d in Censored(results, labels) <==> d in results && Admits(labels, d.name)
    decreases |results|
  {
    if results != [] {
      CensoredMembership(results[1..], labels, d);
      assert results == [results[0]] + results[1..];
    }
  }

  /** Filtering distributes over concatenation, so the detections acted on
      keep their order in the results. */
  lemma {:induction false} CensoredAppend(a: seq<Detection>, b: seq<Detection>, labels: seq<string>)
    ensures Censored(a + b, labels) == Censored(a, labels) + Censored(b, labels)
    decreases |a|
  {
    if a == [] {
      assert a + b == b;
    } else {
      assert (a + b)[1..] == a[1..] + b;
      CensoredAppend(a[1..], b, labels);
    }
  }

  /** One step of a left-to-right walk over the results: the detection at
      position `i` joins the prefix acted on exactly when it is admitted. */
  lemma CensoredStep(results: seq<Detection>, i: nat, labels: seq<string>)
    requires i < |results|
    ensures Censored(results[..i + 1], labels)
         == Censored(results[..i], labels) + (if Admits(labels, results[i].name) then [results[i]] else [])
    ensures Censored(results[i..], labels)
         == (if Admits(labels, results[i].name) then [results[i]] else []) + Censored(results[i + 1..], labels)
  {
    assert results[..i + 1] == results[..i] + [results[i]];
    CensoredAppend(results[..i], [results[i]], labels);
    assert [results[i]][1..] == [];
    assert results[i..][1..] == results[i + 1..];
  }

  /** When every result's label is admitted, every result is acted on, in order. */
  lemma {:induction false} CensoredAllAdmitted(results: seq<Detection>, labels: seq<string>)
    requires forall i :: 0 <= i < |results| ==> Admits(labels, results[i].name)
    ensures Censored(results, labels) == results
    decreases |results|
  {
    if results != [] {
      CensoredAllAdmitted(results[1..], labels);
    }
  }

  /** A list passed to the constructor is used as given (main.py lines
      50-54): a detection is acted on exactly when its label is in that list,
      so an explicitly passed empty list censors nothing rather than falling
      back to the default. */
  lemma EmptyPolicyCensorsNothing(results: seq<Detection>, given: seq<string>, d: Detection)
    ensures d in Censored(results, ResolveLabels(Some(given))) <==> d in results && d.name in given
    ensures Censored(results, ResolveLabels(Some([]))) == []
  {
    CensoredMembership(results, given, d);
    var none := Censored(results, []);
    if none != [] {
      CensoredMembership(results, [], none[0]);
    }
  }

  /** Omitting the list censors exactly the four default labels of
      `CENSORED_LABELS` (main.py lines 13-18). */
  lemma DefaultPolicyLabels(results: seq<Detection>, d: Detection)
    ensures d in Censored(results, ResolveLabels(None))
        <==> (d in results &&
              (d.name == "EXPOSED_GENITALIA_F" || d.name == "COVERED_GENITALIA_F" ||
               d.name == "EXPOSED_BREAST_F" || d.name == "EXPOSED_BUTTOCKS"))
  {
    CensoredMembership(results, CensoredLabels, d);
  }
}
