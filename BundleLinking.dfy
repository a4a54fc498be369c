/** The bundle tasks of index.mjs: one task per discovered bundle reads it,
    runs the linker over it and writes the result beside it under a derived
    name. Discovery, reading, the linker itself and writing are outside the
    model; what is modelled is which file each task writes. */
module BundleLinking {

  /** The suffix of every derived artifact */
  const LINKED_SUFFIX: string := ".linked.mjs"

  /** The file the manifest task writes */
  const MANIFEST_FILE: string := "package.json"

  /** `${bundleFile}.linked.mjs`: the derived artifact of a bundle */
  function LinkedName(bundleFile: string): string {
    bundleFile + LINKED_SUFFIX
  }

  /** The original path, recovered from a derived name */
  function SourceName(linked: string): (bundleFile: string)
    requires |linked| >= |LINKED_SUFFIX| && linked[|linked| - |LINKED_SUFFIX|..] == LINKED_SUFFIX
    ensures |bundleFile| == |linked| - |LINKED_SUFFIX|
  {
    linked[..|linked| - |LINKED_SUFFIX|]
  }

  /** The derived name ends in the suffix and strips back to the bundle path. */
  lemma LinkedNameRoundTrip(bundleFile: string)
    ensures |LinkedName(bundleFile)| == |bundleFile| + |LINKED_SUFFIX|
    ensures LinkedName(bundleFile)[|bundleFile|..] == LINKED_SUFFIX
    ensures SourceName(LinkedName(bundleFile)) == bundleFile
  {
  }

  /** Two bundles never share a derived artifact. */
  lemma LinkedNameInjective(p: string, q: string)
    requires LinkedName(p) == LinkedName(q)
    ensures p == q
  {
    LinkedNameRoundTrip(p);
    LinkedNameRoundTrip(q);
  }

  /** A task never overwrites the bundle it reads, and never the manifest. */
  lemma LinkedNameIsNew(bundleFile: string)
    ensures LinkedName(bundleFile) != bundleFile
    ensures LinkedName(bundleFile) != MANIFEST_FILE
  {
    var linked := LinkedName(bundleFile);
    assert |linked| > |bundleFile|;
    assert linked[|linked| - 1] == 's' != MANIFEST_FILE[|MANIFEST_FILE| - 1];
  }

  /** One bundle task's effect: write `transform(read(bundle), bundle)` to
      the derived path. */
  datatype Write = Write(path: string, content: string)

  /** The loop that starts one task per discovered bundle, each task's file
      write collected in discovery order. `read` stands for the file contents
      and `transform` for the linker's output on those contents and the
      bundle's file name, both outside the model. */
  method PlanBundleWrites(bundles: seq<string>, read: string -> string, transform: (string, string) -> string)
    returns (writes: seq<Write>)
    ensures |writes| == |bundles|
    ensures forall i :: 0 <= i < |bundles| ==>
              writes[i] == Write(LinkedName(bundles[i]), transform(read(bundles[i]), bundles[i]))
    ensures forall i :: 0 <= i < |writes| ==> writes[i].path != bundles[i] && writes[i].path != MANIFEST_FILE
    ensures forall i, j :: 0 <= i < j < |writes| && bundles[i] != bundles[j] ==> writes[i].path != writes[j].path
  {
    writes := [];
    for i := 0 to |bundles|
      invariant |writes| == i
      invariant forall j :: 0 <= j < i ==>
                  writes[j] == Write(LinkedName(bundles[j]), transform(read(bundles[j]), bundles[j]))
    {
      var bundleFile := bundles[i];
      writes := writes + [Write(LinkedName(bundleFile), transform(read(bundleFile), bundleFile))];
    }
    forall i | 0 <= i < |writes|
      ensures writes[i].path != bundles[i] && writes[i].path != MANIFEST_FILE
    {
      LinkedNameIsNew(bundles[i]);
    }
    forall i, j | 0 <= i < j < |writes| && bundles[i] != bundles[j]
      ensures writes[i].path != writes[j].path
    {
      if writes[i].path == writes[j].path {
        LinkedNameInjective(bundles[i], bundles[j]);
      }
    }
  }
}
