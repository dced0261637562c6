/**
 * The command-line front end of `main`: without flags each image's
 * transcript is printed; with `--ocr` it is written to a text file named
 * after the image's stem, in the working directory, and the export is
 * announced; with `--server` nothing is done with the file arguments.
 */
module Cli {
  import opened Wrappers
  import opened Text
  import opened Paths
  import opened Ocr
  import opened Joins

  /** What the flags select. */
  datatype Mode = PrintText | ExportText | Serve

  /** The mode of `--ocr` and `--server`, which the argument parser lets through only one at a time. */
  function ModeOf(ocr: bool, server: bool): (m: Mode)
    requires !(ocr && server)
    ensures m == PrintText <==> !ocr && !server
    ensures m == ExportText <==> ocr
    ensures m == Serve <==> server
  {
    if ocr then ExportText else if server then Serve else PrintText
  }

  /**
   * A file argument and what the system does with it: `isImage` is what
   * content sniffing says (false when it cannot be read), `readable`,
   * `decoded` and `results` are what `get_ocr_result` meets, and
   * `writeSucceeds` whether writing the exported text succeeds.
   */
  datatype InputFile = InputFile(
    path: string, isImage: bool,
    readable: bool, decoded: Option<(u32, u32)>, results: Option<seq<Observation>>,
    writeSucceeds: bool)

  /** The recognition of a file argument: present for an image whose OCR succeeded. */
  function Outcome(f: InputFile): (r: Option<OcrResult>)
    ensures r.Some? <==> f.isImage && f.readable
    ensures r.Some? ==>
      r.value.text == Transcript(Observed(f.results)) && (r.value.imageWidth, r.value.imageHeight) == Dimensions(f.decoded)
  {
    if f.isImage && f.readable then
      var (width, height) := Dimensions(f.decoded);
      Some(OcrResult(Transcript(Observed(f.results)), width, height, Boxes(Observed(f.results), width, height)))
    else None
  }

  /** The text file an export of `path` writes: the file stem with ".txt" appended. */
  function ExportName(path: string): Option<string> {
    match FileStem(path)
    case None => None
    case Some(stem) => Some(stem + ".txt")
  }

  /** What the default mode prints for one argument: its transcript, if recognized. */
  function PrintedBy(f: InputFile): string {
    match Outcome(f) case Some(r) => r.text case None => ""
  }

  /** The text file `--ocr` writes for one argument, as (name, contents), if any. */
  function ExportOf(f: InputFile): seq<(string, string)> {
    if Outcome(f).Some? && ExportName(f.path).Some? then [(ExportName(f.path).value, Outcome(f).value.text)] else []
  }

  /** What `--ocr` prints for one argument: an "input --> output" line when its export was written. */
  function AnnouncementOf(f: InputFile): string {
    if ExportOf(f) != [] && f.writeSucceeds then f.path + " --> " + ExportName(f.path).value + "\n" else ""
  }

  /** What the default mode prints for `files`. */
  function Printed(files: seq<InputFile>): string {
    Joined(files, PrintedBy)
  }

  /** The text files `--ocr` writes for `files`. */
  function Exported(files: seq<InputFile>): seq<(string, string)> {
    Joined(files, ExportOf)
  }

  /** What `--ocr` prints for `files`. */
  function Announced(files: seq<InputFile>): string {
    Joined(files, AnnouncementOf)
  }

  /**
   * The file loop of `main`, with standard output and the writes it
   * attempts as results.
   */
  method Run(mode: Mode, files: seq<InputFile>) returns (stdout: string, writes: seq<(string, string)>)
    ensures mode == PrintText ==> stdout == Printed(files) && writes == []
    ensures mode == ExportText ==> stdout == Announced(files) && writes == Exported(files)
    ensures mode == Serve ==> stdout == "" && writes == []
  {
    stdout, writes := "", [];
    if mode == PrintText {
      stdout := PrintAll(files);
    } else if mode == ExportText {
      stdout, writes := ExportAll(files);
    }
  }

  /** The loop without flags: print each recognized image's transcript. */
  method PrintAll(files: seq<InputFile>) returns (stdout: string)
    ensures stdout == Printed(files)
  {
    stdout := "";
    for i := 0 to |files|
      invariant stdout == Printed(files[..i])
    {
      assert files[..i + 1][..i] == files[..i];
      var file := files[i];
      ghost var before := stdout;
      if file.isImage {
        var r := GetOcrResult(file.readable, file.decoded, file.results);
        if r.Ok? {
          assert PrintedBy(file) == r.value.text;
          stdout := stdout + r.value.text;
        } else {
          assert r.error == ReadFailed;
          assert PrintedBy(file) == "";
        }
      } else {
        assert PrintedBy(file) == "";
      }
      assert stdout == before + PrintedBy(file);
    }
    assert files[..|files|] == files;
  }

  /** The loop of `--ocr`: write each recognized image's transcript to its text file, and announce the writes that succeed. */
  method ExportAll(files: seq<InputFile>) returns (stdout: string, writes: seq<(string, string)>)
    ensures stdout == Announced(files) && writes == Exported(files)
  {
    stdout, writes := "", [];
    for i := 0 to |files|
      invariant stdout == Announced(files[..i])
      invariant writes == Exported(files[..i])
    {
      assert files[..i + 1][..i] == files[..i];
      var file := files[i];
      ghost var before, wrote := stdout, writes;
      if file.isImage {
        var r := GetOcrResult(file.readable, file.decoded, file.results);
        if r.Ok? {
          assert Outcome(file) == Some(r.value);
          var stem := FileStem(file.path);
          if stem.Some? {
            var textFile := stem.value + ".txt";
            assert ExportOf(file) == [(textFile, r.value.text)];
            writes := writes + [(textFile, r.value.text)];
            if file.writeSucceeds {
              var announcement := file.path + " --> " + textFile + "\n";
              assert AnnouncementOf(file) == announcement;
              stdout := stdout + announcement;
            } else {
              assert AnnouncementOf(file) == "";
            }
          } else {
            assert ExportOf(file) == [] && AnnouncementOf(file) == "";
          }
        } else {
          assert r.error == ReadFailed;
          assert ExportOf(file) == [] && AnnouncementOf(file) == "";
        }
      } else {
        assert ExportOf(file) == [] && AnnouncementOf(file) == "";
      }
      assert writes == wrote + ExportOf(file);
      assert stdout == before + AnnouncementOf(file);
    }
    assert files[..|files|] == files;
  }

  // ---------------------------------------------------------------- properties

  /**
   * The export of `path` is a single component ending in ".txt" whose stem
   * is the input's stem: it lands in the working directory, whatever
   * directory the image was in.
   */
  lemma ExportNameIsPlainTextFile(path: string)
    requires ExportName(path).Some?
    ensures var name := ExportName(path).value;
      FileName(name) == Some(name) && Extension(name) == Some("txt") && FileStem(name) == FileStem(path)
  {
    var stem := FileStem(path).value;
    var name := stem + ".txt";
    assert '/' !in name by {
      assert forall i :: 0 <= i < |name| ==> name[i] == if i < |stem| then stem[i] else ".txt"[i - |stem|];
    }
    PlainFileName(name);
    assert name[|stem|] == '.' && name[|stem| + 1..] == "txt";
    LastIndexOfAt(name, '.', |stem|);
    assert name[..|stem|] == stem;
  }

  /** Only an image whose recognition succeeded and whose path has a stem is exported. */
  lemma ExportedExactlyWhenRecognized(f: InputFile)
    ensures Exported([f]) != [] <==> f.isImage && f.readable && FileStem(f.path).Some?
    ensures Exported([f]) != [] ==> Exported([f]) == [(FileStem(f.path).value + ".txt", Transcript(Observed(f.results)))]
  {
    assert [f][..0] == [];
    assert Joined([f][..0], ExportOf) == [];
  }

  /** A file argument that is not an image, or cannot be read, leaves no trace in any mode. */
  lemma SkippedFileLeavesNoTrace(a: seq<InputFile>, f: InputFile, b: seq<InputFile>)
    requires !(f.isImage && f.readable)
    ensures Exported(a + [f] + b) == Exported(a + b)
    ensures Announced(a + [f] + b) == Announced(a + b)
    ensures Printed(a + [f] + b) == Printed(a + b)
  {
    JoinedSkip(a, f, b, ExportOf);
    JoinedSkip(a, f, b, AnnouncementOf);
    JoinedSkip(a, f, b, PrintedBy);
  }

  /** Every export is named after one of the arguments and holds that argument's transcript. */
  lemma {:induction false} ExportsComeFromRecognizedImages(files: seq<InputFile>)
    ensures |Exported(files)| <= |files|
    ensures forall w :: w in Exported(files) ==>
      exists f :: f in files && Outcome(f).Some? && ExportName(f.path) == Some(w.0) && w.1 == Outcome(f).value.text
    decreases |files|
  {
    if files != [] {
      var init, f := files[..|files| - 1], files[|files| - 1];
      ExportsComeFromRecognizedImages(init);
      forall w | w in Exported(files)
        ensures exists g :: g in files && Outcome(g).Some? && ExportName(g.path) == Some(w.0) && w.1 == Outcome(g).value.text
      {
        if w in Exported(init) {
          var g :| g in init && Outcome(g).Some? && ExportName(g.path) == Some(w.0) && w.1 == Outcome(g).value.text;
          assert g in files;
        } else {
          assert f in files;
        }
      }
    }
  }

  /**
   * Only the file name of an argument decides its export: images of the
   * same name in different directories are exported to the same text file.
   */
  lemma ExportIgnoresDirectory(dir: string, name: string)
    requires name != "" && name != "." && name != ".." && '/' !in name
    ensures ExportName(dir + "/" + name) == ExportName(name)
  {
    FileNameIgnoresDirectory(dir, name);
    PlainFileName(name);
  }
}
