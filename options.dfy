/** The option records of the library and the values that stand in for Go's
    io.Writer and time.Time. */
module Options {

  /** A modification time.  Only equality of timestamps matters here. */
  type Timestamp = int

  newtype uint64 = x: int | 0 <= x < 0x1_0000_0000_0000_0000

  newtype byte = x: int | 0 <= x < 256

  /** Where status messages go: a nil writer discards them. */
  datatype Output = Discard | Writer

  /** Options of Zip.  The documented range of `compressionLevel` is 0-9, with -1
      meaning the codec's default. */
  datatype ZipOptions = ZipOptions(
    recursive: bool,
    compressionLevel: int,
    excludePatterns: seq<string>,
    output: Output)

  /** Options of Unzip.  An empty `outputDir` means "."; empty `filePatterns`
      means every entry. */
  datatype UnzipOptions = UnzipOptions(
    outputDir: string,
    overwrite: bool,
    junkPaths: bool,
    filePatterns: seq<string>,
    output: Output)

  /** What List reports for one archive record. */
  datatype ListEntry = ListEntry(
    name: string,
    uncompressedSize: uint64,
    compressedSize: uint64,
    modified: Timestamp,
    isDir: bool)

  /** What actually reaches the status writer of the given lines. */
  function Emit(output: Output, lines: seq<string>): seq<string> {
    if output.Discard? then [] else lines
  }

  /** Writing lines in two batches is writing them all in one. */
  lemma EmitAppend(before: seq<string>, output: Output, a: seq<string>, b: seq<string>)
    ensures before + Emit(output, a) + Emit(output, b) == before + Emit(output, a + b)
  {
    if output.Discard? {
      assert before + [] + [] == before + [];
    } else {
      assert before + a + b == before + (a + b);
    }
  }

  /** The directory Unzip extracts into. */
  function OutputDir(opts: UnzipOptions): (dir: string)
    ensures dir != ""
    ensures opts.outputDir != "" ==> dir == opts.outputDir
    ensures opts.outputDir == "" ==> dir == "."
  {
    if opts.outputDir == "" then "." else opts.outputDir
  }
}
