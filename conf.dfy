/** The configuration: the input playlist, the output playlist and the new
    extension, and `Config::validate`, which checks them in a fixed order and
    reports only the first problem. */
module Conf {
  import opened Common

  datatype Config = Config(inputFile: string, outputFile: string, newExt: string)

  const InputEmpty: string := "`inputFile` is empty"
  const OutputEmpty: string := "`outputFile` is empty"
  const NewExtEmpty: string := "`newExt` is empty"
  const SameFiles: string := "`inputFile` shouldn't be the same as `outputFile`"

  /** A configuration the pipeline can run with. */
  predicate Valid(c: Config)
  {
    c.inputFile != "" && c.outputFile != "" && c.newExt != "" && c.inputFile != c.outputFile
  }

  /** `Config::validate`: the checks run in order and the first that fails
      decides the message. */
  function Validate(c: Config): (r: Outcome)
    ensures r == Ok <==> Valid(c)
    ensures r.Err? ==> r.message in {InputEmpty, OutputEmpty, NewExtEmpty, SameFiles}
  {
    if c.inputFile == "" then Err(InputEmpty)
    else if c.outputFile == "" then Err(OutputEmpty)
    else if c.newExt == "" then Err(NewExtEmpty)
    else if c.inputFile == c.outputFile then Err(SameFiles)
    else Ok
  }

  /** Each message names the first check that fails: an empty input file wins
      over everything, an empty output file over the extension and the
      equality, an empty extension over the equality. */
  lemma ValidateFirstFailureWins(c: Config)
    ensures Validate(c) == Err(InputEmpty) <==> c.inputFile == ""
    ensures Validate(c) == Err(OutputEmpty) <==> c.inputFile != "" && c.outputFile == ""
    ensures Validate(c) == Err(NewExtEmpty) <==> c.inputFile != "" && c.outputFile != "" && c.newExt == ""
    ensures Validate(c) == Err(SameFiles) <==>
      c.inputFile != "" && c.outputFile != "" && c.newExt != "" && c.inputFile == c.outputFile
  {
  }

  /** The configuration of the crate's valid example passes. */
  lemma ValidExample()
    ensures Validate(Config("/path/to/input.m3u8", "/path/to/output.m3u8", ".m4a")) == Ok
  {
  }

  /** The crate's four invalid examples are rejected, each for its own reason. */
  lemma InvalidExamples()
    ensures Validate(Config("", "", "")) == Err(InputEmpty)
    ensures Validate(Config("/path/to/input.m3u8", "", "")) == Err(OutputEmpty)
    ensures Validate(Config("/path/to/input.m3u8", "/path/to/output.m3u8", "")) == Err(NewExtEmpty)
    ensures Validate(Config("/path/to/input.m3u8", "/path/to/input.m3u8", ".m4a")) == Err(SameFiles)
  {
  }
}
