/**
 * NoTransform, the identity strategy. Its one-argument `transform` hands back the input file
 * itself (see MatrixTransformer.TransformFile). Its two-argument `transform` copies the input
 * file into the output file through a FileChannel: the input is opened for reading, the
 * output is opened for writing (which creates or truncates it), and then `original.size()`
 * bytes are transferred from offset 0. Files are modelled as a store from paths to their lines.
 */
module NoTransform {
  import opened Results

  /** Opening the input with `new FileInputStream` fails when there is no such file. */
  datatype CopyError = FileNotFound(path: string)

  type Files = map<string, seq<string>>

  /** The outcome of `transform(input, output)` on `files`, step by step as the channels do it. */
  function CopyAsWritten(files: Files, input: string, output: string): (Outcome<CopyError>, Files) {
    if input !in files then (Fail(FileNotFound(input)), files)
    else
      var truncated := files[output := []];
      var size := |truncated[input]|;
      (Pass, truncated[output := truncated[input][..size]])
  }

  /** Copying into another file duplicates the input and leaves every other file, the input included, as it was. */
  lemma CopyDuplicates(files: Files, input: string, output: string)
    requires input in files && input != output
    ensures CopyAsWritten(files, input, output).0 == Pass
    ensures CopyAsWritten(files, input, output).1 == files[output := files[input]]
  {
    assert files[input][..|files[input]|] == files[input];
    assert files[output := []][output := files[input]] == files[output := files[input]];
  }

  /** A missing input is reported, before the output is opened, so no file changes. */
  lemma CopyMissingInput(files: Files, input: string, output: string)
    requires input !in files
    ensures CopyAsWritten(files, input, output) == (Fail(FileNotFound(input)), files)
  {
  }

  /**
   * Copying a file onto itself empties it: opening the output truncates the input before
   * its size is read, so nothing is transferred.
   */
  lemma SameFileCopyTruncates(files: Files, path: string)
    requires path in files
    ensures CopyAsWritten(files, path, path) == (Pass, files[path := []])
  {
    assert files[path := []][path := []] == files[path := []];
  }

  /** One file that a copy onto itself destroys. */
  lemma SameFileCopyLosesContent()
    ensures var files := map["matrix.dat" := ["1 1 2"]];
      CopyAsWritten(files, "matrix.dat", "matrix.dat").1["matrix.dat"] != files["matrix.dat"]
  {
    SameFileCopyTruncates(map["matrix.dat" := ["1 1 2"]], "matrix.dat");
  }

  /** The copy with the input's content read before the output is opened. */
  function CopyCorrected(files: Files, input: string, output: string): (Outcome<CopyError>, Files) {
    if input !in files then (Fail(FileNotFound(input)), files)
    else
      var content := files[input];
      (Pass, files[output := []][output := content])
  }

  /** The corrected copy makes the output equal to the input in every case, the same file included. */
  lemma CorrectedCopyDuplicates(files: Files, input: string, output: string)
    requires input in files
    ensures CopyCorrected(files, input, output) == (Pass, files[output := files[input]])
    ensures CopyCorrected(files, input, output).1[input] == files[input]
  {
    assert files[output := []][output := files[input]] == files[output := files[input]];
  }

  /** The file system the two-argument `transform` works on. */
  class FileStore {
    var files: Files

    constructor (initial: Files)
      ensures files == initial
    {
      files := initial;
    }

    /** `transform(File matrixInput, File matrixOutput)`. */
    method Transform(input: string, output: string) returns (r: Outcome<CopyError>)
      modifies this
      ensures (r, files) == CopyAsWritten(old(files), input, output)
    {
      if input !in files {
        return Fail(FileNotFound(input));
      }
      // new FileOutputStream(matrixOutput) creates or truncates the output
      files := files[output := []];
      var size := |files[input]|;
      // copy.transferFrom(original, 0, original.size())
      var transferred := files[input][..size];
      files := files[output := transferred];
      return Pass;
    }
  }
}
