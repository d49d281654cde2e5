/** The regression check at the end of the script: each produced image is read
    back together with its reference, the two pixel buffers are compared (a
    hash comparison, modelled as equality of the bytes), a verdict line is
    printed per file, and "Ok!" follows only when every file matched. */
module Validation {
  import opened Results
  import opened Tensors

  /** One file to compare: its stem and the decoded buffers `cv2.imread`
      returned for the reference and the result, None when it could not read one. */
  datatype Comparison = Comparison(stem: string, reference: Option<seq<Byte>>, result: Option<seq<Byte>>)

  /** Both images were read; otherwise `.tobytes()` raises and the run aborts. */
  predicate Readable(f: Comparison) {
    f.reference.Some? && f.result.Some?
  }

  /** The file's two buffers are equal. */
  predicate Matches(f: Comparison)
    requires Readable(f)
  {
    f.reference.value == f.result.value
  }

  /** The verdict printed for one file. */
  function VerdictLine(stem: string, equal: bool): string {
    " image " + stem + ".png: results are " + (if equal then "equal" else "not equal")
  }

  const OkLine: string := "Ok!"

  /** The number of files compared before the first unreadable one. */
  function ReadablePrefix(files: seq<Comparison>): (n: nat)
    ensures n <= |files|
    ensures forall i :: 0 <= i < n ==> Readable(files[i])
    ensures n < |files| ==> !Readable(files[n])
  {
    if files == [] || !Readable(files[0]) then 0
    else 1 + ReadablePrefix(files[1..])
  }

  /** Every file was read and every file matched. */
  predicate AllMatch(files: seq<Comparison>) {
    forall i :: 0 <= i < |files| ==> Readable(files[i]) && Matches(files[i])
  }

  /** The directory branch: files are compared in order until one cannot be
      read. `completed` says the loop ran to the end; `flags` is the conjunction
      of the verdicts of the files compared; `lines` is what was printed. */
  method MatchDirectory(files: seq<Comparison>) returns (completed: bool, flags: bool, lines: seq<string>)
    ensures completed <==> ReadablePrefix(files) == |files|
    ensures flags <==> forall i :: 0 <= i < ReadablePrefix(files) ==> Matches(files[i])
    ensures completed ==> (flags <==> AllMatch(files))
    ensures |lines| == ReadablePrefix(files) + (if completed && flags then 1 else 0)
    ensures forall i :: 0 <= i < ReadablePrefix(files) ==>
      lines[i] == VerdictLine(files[i].stem, Matches(files[i]))
    ensures completed && flags ==> lines[|files|] == OkLine
  {
    flags := true;
    lines := [];
    var i := 0;
    while i < |files| && Readable(files[i])
      invariant 0 <= i <= |files|
      invariant forall j :: 0 <= j < i ==> Readable(files[j])
      invariant flags <==> forall j :: 0 <= j < i ==> Matches(files[j])
      invariant |lines| == i
      invariant forall j :: 0 <= j < i ==> lines[j] == VerdictLine(files[j].stem, Matches(files[j]))
    {
      var equal := files[i].reference.value == files[i].result.value;
      flags := flags && equal;
      lines := lines + [VerdictLine(files[i].stem, equal)];
      i := i + 1;
    }
    completed := i == |files|;
    if completed && flags {
      lines := lines + [OkLine];
    }
  }

  /** The single-file branch: one comparison, no per-file verdict line. */
  method MatchSingleFile(file: Comparison) returns (completed: bool, flags: bool, lines: seq<string>)
    ensures completed <==> Readable(file)
    ensures completed ==> (flags <==> Matches(file))
    ensures lines == if completed && flags then [OkLine] else []
  {
    flags := true;
    lines := [];
    completed := Readable(file);
    if completed {
      flags := flags && file.reference.value == file.result.value;
      if flags {
        lines := [OkLine];
      }
    }
  }

  /** Identical buffers for every file: every verdict is "equal" and the run ends with "Ok!". */
  lemma IdenticalFilesAllMatch(files: seq<Comparison>)
    requires forall i :: 0 <= i < |files| ==> files[i].reference.Some? && files[i].reference == files[i].result
    ensures ReadablePrefix(files) == |files|
    ensures AllMatch(files)
  {
  }

  /** Changing one reference buffer of a fully matching set flips that file's
      verdict and the aggregate, and no other file's verdict. */
  lemma OneAlteredReference(files: seq<Comparison>, k: nat, altered: seq<Byte>)
    requires AllMatch(files)
    requires k < |files| && altered != files[k].result.value
    ensures var changed := files[k := files[k].(reference := Some(altered))];
      && ReadablePrefix(changed) == |changed|
      && !Matches(changed[k])
      && (forall i :: 0 <= i < |files| && i != k ==> Matches(changed[i]))
      && !AllMatch(changed)
  {
    var changed := files[k := files[k].(reference := Some(altered))];
    assert forall i :: 0 <= i < |changed| ==> Readable(changed[i]);
  }
}
